/** The environment the file synchronisation runs in: a file system of paths
    mapped to {size, last write time, contents}, the hash provider with its
    .hashcheck sidecar codec, and the locking file transfer. The hash
    algorithms and the sidecar text format are not part of this model: a
    hash is an uninterpreted function of a file's contents, and a sidecar
    holds the hash record itself. */
module Storage {
  import opened Text

  type Path = string

  /** HashUtilities.HASHCHECK_FILE_SUFFIX */
  const HASHCHECK_FILE_SUFFIX: string := ".hashcheck"
  /** FileSyncUtils.LASTUSED_FILE_EXTENSION */
  const LASTUSED_FILE_EXTENSION: string := ".LastUsed"

  const SECONDS_PER_DAY: int := 86400
  const BYTES_PER_MB: int := 1024 * 1024

  function HashcheckPath(dataPath: Path): Path {
    dataPath + HASHCHECK_FILE_SUFFIX
  }

  function LastUsedPath(dataPath: Path): Path {
    dataPath + LASTUSED_FILE_EXTENSION
  }

  /** The two sidecars of one data file and the file itself are three
      different paths. */
  lemma SidecarPathsDistinct(p: Path)
    ensures HashcheckPath(p) != p && LastUsedPath(p) != p
    ensures HashcheckPath(p) != LastUsedPath(p)
  {
    assert |HashcheckPath(p)| != |LastUsedPath(p)|;
  }

  predicate IsDirectorySeparator(c: char) {
    c == '\\' || c == '/'
  }

  predicate HasNoSeparator(s: string) {
    forall i :: 0 <= i < |s| ==> !IsDirectorySeparator(s[i])
  }

  /** Path.GetFileName: the text after the last directory separator. */
  function FileName(p: Path): (name: Path)
    ensures HasNoSeparator(name)
    ensures |name| <= |p|
  {
    if |p| == 0 then ""
    else if IsDirectorySeparator(p[|p| - 1]) then ""
    else FileName(p[..|p| - 1]) + [p[|p| - 1]]
  }

  /** The file name is the path's tail after its last separator: a suffix
      of the path, preceded by a separator unless it is the whole path. */
  lemma {:induction false} FileNameIsTail(p: Path)
    ensures var name := FileName(p);
            && name == p[|p| - |name|..]
            && (|name| < |p| ==> IsDirectorySeparator(p[|p| - |name| - 1]))
  {
    if |p| > 0 && !IsDirectorySeparator(p[|p| - 1]) {
      var front := p[..|p| - 1];
      FileNameIsTail(front);
      var name := FileName(front);
      assert p == front + [p[|p| - 1]];
      assert FileName(p) == name + [p[|p| - 1]];
      assert p[|p| - |name| - 1..] == front[|front| - |name|..] + [p[|p| - 1]];
    }
  }

  /** Appending text without separators extends the file name. */
  lemma {:induction false} FileNameAppend(p: Path, suffix: string)
    requires HasNoSeparator(suffix)
    ensures FileName(p + suffix) == FileName(p) + suffix
    decreases |suffix|
  {
    if suffix == [] {
      assert p + suffix == p;
    } else {
      var init := suffix[..|suffix| - 1];
      var c := suffix[|suffix| - 1];
      assert suffix == init + [c];
      var q := p + init;
      var whole := p + suffix;
      assert whole == q + [c];
      assert whole[..|whole| - 1] == q;
      assert whole[|whole| - 1] == c && !IsDirectorySeparator(c);
      assert FileName(whole) == FileName(q) + [c];
      FileNameAppend(p, init);
      assert HasNoSeparator(init);
      assert FileName(p) + init + [c] == FileName(p) + suffix;
    }
  }

  /** Path.Combine for a relative file name. */
  function Combine(directory: Path, name: Path): Path {
    if |directory| == 0 then name
    else if IsDirectorySeparator(directory[|directory| - 1]) then directory + name
    else directory + "\\" + name
  }

  /** Combining with a suffixed name is suffixing the combined path: the
      local .hashcheck file the orchestrator inspects is the sidecar of the
      local data file. */
  lemma CombineSuffix(directory: Path, name: Path, suffix: string)
    ensures Combine(directory, name + suffix) == Combine(directory, name) + suffix
  {
    var sep: string := "\\";
    if |directory| == 0 {
    } else if IsDirectorySeparator(directory[|directory| - 1]) {
      assert directory + (name + suffix) == (directory + name) + suffix;
    } else {
      assert Combine(directory, name + suffix) == directory + sep + (name + suffix);
      assert directory + sep + (name + suffix) == (directory + sep + name) + suffix;
    }
  }

  /** A file name combined with a directory is the file name of the result. */
  lemma CombineFileName(directory: Path, name: Path)
    requires HasNoSeparator(name)
    ensures FileName(Combine(directory, name)) == name
  {
    var sep: string := "\\";
    if |directory| == 0 {
      FileNameAppend("", name);
      assert "" + name == name;
    } else if IsDirectorySeparator(directory[|directory| - 1]) {
      FileNameAppend(directory, name);
      assert FileName(directory) == "";
    } else {
      var front := directory + sep;
      FileNameAppend(front, name);
      assert front[|front| - 1] == '\\';
      assert FileName(front) == "";
      assert Combine(directory, name) == front + name;
    }
  }

  /** The two sidecar suffixes hold no directory separator. */
  lemma SuffixesHoldNoSeparator()
    ensures HasNoSeparator(HASHCHECK_FILE_SUFFIX) && HasNoSeparator(LASTUSED_FILE_EXTENSION)
  {
  }

  datatype HashType = Undefined | CRC32 | MD5 | SHA1

  /** HashUtilities.HashInfoType: one .hashcheck record. Times are UTC seconds. */
  datatype HashInfo = HashInfo(hashValue: string, hashType: HashType, fileSize: int, fileDateUtc: int)

  /** HashInfoType.Clear() */
  const ClearedHashInfo: HashInfo := HashInfo("", Undefined, 0, 0)

  /** What a file holds: data bytes, a .hashcheck record, or a .LastUsed time stamp. */
  datatype Contents = Data(bytes: seq<bv8>) | HashRecord(info: HashInfo) | LastUsedStamp(utc: int)

  /** FileInfo: Length, LastWriteTimeUtc (in seconds) and the contents. The
      length of a sidecar is never read, so sidecars written here record 0. */
  datatype FileData = FileData(size: int, lastWriteUtc: int, contents: Contents)

  type FileMap = map<Path, FileData>

  /** HashUtilities.ComputeFileHash as an uninterpreted function. */
  datatype HashProvider = HashProvider(compute: (Contents, HashType) -> string)

  /** HashUtilities.ReadHashcheckFile: a file that does not hold a record
      reads as the cleared record. */
  function ReadHashcheckFile(f: FileData): (info: HashInfo)
    ensures f.contents.HashRecord? ==> info == f.contents.info
  {
    if f.contents.HashRecord? then f.contents.info else ClearedHashInfo
  }

  /** Outcome of HashUtilities.CreateHashcheckFile. */
  datatype Creation = Created(hashValue: string, files: FileMap) | CreationFailed

  /** HashUtilities.CreateHashcheckFile(dataPath, hashType): hashes the file
      and, when the hash is not blank, (over)writes `<dataPath>.hashcheck`
      with the hash, the type, the file's size and its last write time; the
      write fails when another process holds the sidecar. */
  function CreateHashcheckFile(files: FileMap, locked: set<Path>, hasher: HashProvider, now: int,
                               dataPath: Path, hashType: HashType): (c: Creation)
    requires dataPath in files
  {
    var hash := hasher.compute(files[dataPath].contents, hashType);
    var data := files[dataPath];
    if IsBlank(hash) then Created(hash, files)
    else if HashcheckPath(dataPath) in locked then CreationFailed
    else Created(hash, files[HashcheckPath(dataPath) := FileData(0, now, HashRecord(HashInfo(hash, hashType, data.size, data.lastWriteUtc)))])
  }

  /** Something that happened outside the file map: a transfer started by
      clsFileTools.CopyFileUsingLocks, or a wait. */
  datatype Event = Transfer(source: Path, target: Path) | Slept(seconds: int)

  /** The whole observable state, as a value. */
  datatype Disk = Disk(files: FileMap, directories: set<Path>, locked: set<Path>, clock: int, log: seq<Event>)

  /** The number of transfers in a log. */
  function TransferCount(log: seq<Event>): (n: nat)
    ensures n <= |log|
  {
    if log == [] then 0
    else TransferCount(log[..|log| - 1]) + (if log[|log| - 1].Transfer? then 1 else 0)
  }

  lemma {:induction false} TransferCountAppend(a: seq<Event>, b: seq<Event>)
    ensures TransferCount(a + b) == TransferCount(a) + TransferCount(b)
    decreases |b|
  {
    if b == [] {
      assert a + b == a;
    } else {
      assert (a + b)[..|a + b| - 1] == a + b[..|b| - 1];
      TransferCountAppend(a, b[..|b| - 1]);
    }
  }

  /** The file system the synchronisation runs against. `locked` holds the
      paths another process has open: writing or deleting one raises an
      IOException. */
  class FileSystem {
    var files: FileMap
    var directories: set<Path>
    var locked: set<Path>
    var clock: int
    var log: seq<Event>

    function State(): Disk
      reads this
    {
      Disk(files, directories, locked, clock, log)
    }

    constructor (files: FileMap, directories: set<Path>, locked: set<Path>, clock: int)
      ensures State() == Disk(files, directories, locked, clock, [])
    {
      this.files := files;
      this.directories := directories;
      this.locked := locked;
      this.clock := clock;
      this.log := [];
    }

    /** DirectoryInfo.Create */
    method CreateDirectory(directory: Path)
      modifies this`directories
      ensures directories == old(directories) + {directory}
    {
      directories := directories + {directory};
    }

    /** ConsoleMsgUtils.SleepSeconds */
    method SleepSeconds(seconds: int)
      modifies this`clock, this`log
      ensures clock == old(clock) + seconds && log == old(log) + [Slept(seconds)]
    {
      clock := clock + seconds;
      log := log + [Slept(seconds)];
    }

    /** clsFileTools.CopyFileUsingLocks(source, target, overwrite: true):
        either the target becomes a copy of the source (File.Copy keeps the
        last write time) or the call throws; `ok` is false when it throws. */
    method CopyFileUsingLocks(source: Path, target: Path) returns (ok: bool)
      modifies this`files, this`log
      ensures log == old(log) + [Transfer(source, target)]
      ensures ok <==> source in old(files) && target !in locked
      ensures files == if ok then old(files)[target := old(files)[source]] else old(files)
    {
      log := log + [Transfer(source, target)];
      ok := source in files && target !in locked;
      if ok {
        files := files[target := files[source]];
      }
    }

    /** A write by other processes sharing the cache. */
    method ConcurrentWrites(written: FileMap)
      modifies this`files
      ensures files == old(files) + written
    {
      files := files + written;
    }
  }
}
