/** `FileScanner`: the directory walk that fills the path queue, the worker
    loop that turns queued paths into records, the SHA-256 hashing routine and
    the `/proc/mounts` scan, with one sequential worker in place of threads. */
module FileScanner {
  import opened Wrappers
  import opened FileModel
  import opened HexEncoding
  import opened Streams

  // ---------------------------------------------------------------------------
  // Hashing

  /** The bytes the hashing loop feeds to the digest: the whole chunks only. */
  function FullChunkPrefix(content: Bytes): (fed: Bytes)
    ensures |fed| % ChunkSize == 0 && |content| - |fed| < ChunkSize
    ensures fed <= content
  {
    content[..|content| / ChunkSize * ChunkSize]
  }

  /** The hash string `calculateSHA256` returns for a file: "" when it cannot
      be opened or no digest context can be set up, otherwise the lower-case
      hex encoding of the digest of the whole chunks. */
  function Sha256HexAsWritten(file: Option<Bytes>, engine: DigestEngine): string
  {
    if file.None? || !engine.available then ""
    else Hex(engine.sha256(FullChunkPrefix(file.value)))
  }

  /** The hash string of the whole content, as the hashing loop evidently
      intends. */
  function Sha256Hex(file: Option<Bytes>, engine: DigestEngine): string
  {
    if file.None? || !engine.available then ""
    else Hex(engine.sha256(file.value))
  }

  /** The loop that appends `%02x` of each digest byte to the hash string. */
  method HexString(hash: Bytes) returns (hashString: string)
    ensures hashString == Hex(hash)
  {
    hashString := "";
    for i := 0 to |hash|
      invariant hashString == Hex(hash[..i])
    {
      var hex := ByteToHex(hash[i]);
      hashString := hashString + hex;
      assert hash[..i + 1][..i] == hash[..i];
    }
    assert hash[..|hash|] == hash;
  }

  /** `FileScanner::calculateSHA256` as written: `while (file.read(buffer,
      8192))` feeds a chunk only when the read filled the buffer, so a final
      partial chunk never reaches the digest. */
  method CalculateSha256(disk: map<Path, Node>, filePath: Path, engine: DigestEngine) returns (hashString: string)
    ensures hashString == Sha256HexAsWritten(OpenFile(disk, filePath), engine)
  {
    var content := OpenFile(disk, filePath);
    if content.None? {
      return "";
    }
    if !engine.available {
      return "";
    }
    var file := new InputFileStream(content.value);
    var fed: Bytes := [];
    while true
      invariant file.Valid() && file.data == content.value && file.Good()
      invariant fed == content.value[..file.pos] && file.pos % ChunkSize == 0
      decreases |content.value| - file.pos
    {
      ghost var at := file.pos;
      var buffer := file.Read(ChunkSize);
      if !file.Succeeded() {
        assert at == |content.value| / ChunkSize * ChunkSize;
        break;
      }
      fed := fed + buffer;
    }
    var hash := engine.sha256(fed);
    hashString := HexString(hash);
  }

  /** The hashing loop with the final partial chunk fed too
      (`while (file.read(...) || file.gcount() > 0)`): the digest covers the
      whole file. */
  method CalculateSha256Complete(disk: map<Path, Node>, filePath: Path, engine: DigestEngine) returns (hashString: string)
    ensures hashString == Sha256Hex(OpenFile(disk, filePath), engine)
  {
    var content := OpenFile(disk, filePath);
    if content.None? {
      return "";
    }
    if !engine.available {
      return "";
    }
    var file := new InputFileStream(content.value);
    var fed: Bytes := [];
    while true
      invariant file.Valid() && file.data == content.value
      invariant fed == content.value[..file.pos]
      invariant !file.Good() ==> file.pos == |content.value|
      decreases |content.value| - file.pos + (if file.Good() then 1 else 0)
    {
      var buffer := file.Read(ChunkSize);
      if !file.Succeeded() && file.count == 0 {
        break;
      }
      fed := fed + buffer;
    }
    assert fed == content.value;
    var hash := engine.sha256(fed);
    hashString := HexString(hash);
  }

  /** A hash string is empty (no file, or no digest context) or 64 lower-case
      hex digits. */
  lemma HashStringFormat(file: Option<Bytes>, engine: DigestEngine)
    ensures var h := Sha256HexAsWritten(file, engine);
      (h == "" <==> file.None? || !engine.available)
      && (h != "" ==> |h| == 2 * DigestLength && forall i :: 0 <= i < |h| ==> IsLowerHexDigit(h[i]))
  {
    if file.Some? && engine.available {
      HexIsLowerCase(engine.sha256(FullChunkPrefix(file.value)));
    }
  }

  /** Every readable file shorter than one chunk gets the digest of the empty
      input, whatever its bytes. */
  lemma ShortFilesShareDigest(a: Bytes, b: Bytes, engine: DigestEngine)
    requires |a| < ChunkSize && |b| < ChunkSize
    ensures Sha256HexAsWritten(Some(a), engine) == Sha256HexAsWritten(Some(b), engine)
    ensures engine.available ==> Sha256HexAsWritten(Some(a), engine) == Hex(engine.sha256([]))
  {
    assert |a| / ChunkSize == 0 && |b| / ChunkSize == 0;
    assert FullChunkPrefix(a) == [] && FullChunkPrefix(b) == [];
  }

  /** Files that agree on their whole chunks get the same hash string, however
      their trailing partial chunks differ. */
  lemma TrailingBytesIgnored(a: Bytes, b: Bytes, engine: DigestEngine)
    requires |a| / ChunkSize == |b| / ChunkSize
    requires a[..|a| / ChunkSize * ChunkSize] == b[..|b| / ChunkSize * ChunkSize]
    ensures Sha256HexAsWritten(Some(a), engine) == Sha256HexAsWritten(Some(b), engine)
  {
  }

  /** With the whole content fed, equal hash strings come only from equal
      digests: the hex encoding loses nothing. */
  lemma CompleteHashDeterminedByDigest(a: Bytes, b: Bytes, engine: DigestEngine)
    requires engine.available
    requires Sha256Hex(Some(a), engine) == Sha256Hex(Some(b), engine)
    ensures engine.sha256(a) == engine.sha256(b)
  {
    HexInjective(engine.sha256(a), engine.sha256(b));
  }

  // ---------------------------------------------------------------------------
  // The directory walk

  /** An entry as `recursive_directory_iterator` yields it. */
  datatype WalkEntry = WalkEntry(path: Path, node: Node)

  /** The entries below a directory in the order the iterator visits them:
      each entry, then (for a directory it can open) everything below it.
      "." and ".." are never yielded; a directory that cannot be opened is
      yielded but not entered (`skip_permission_denied`). */
  function DirectoryEntries(dirPath: Path, children: seq<Entry>): seq<WalkEntry>
    decreases children, 0
  {
    if children == [] then []
    else
      DirectoryEntries(dirPath, children[..|children| - 1])
      + EntryWalk(dirPath, children[|children| - 1])
  }

  function EntryWalk(dirPath: Path, e: Entry): seq<WalkEntry>
    decreases e, 1
  {
    if IsDotEntry(e.name) then []
    else
      var p := AppendPath(dirPath, e.name);
      [WalkEntry(p, e.node)]
      + (match e.node
         case Directory(readable, children) => if readable then DirectoryEntries(p, children) else []
         case _ => [])
  }

  /** The iterator over `root`: `None` when constructing it throws (the root
      is missing or not a directory); no entries when the root cannot be
      opened. */
  function IteratorEntries(path: Path, root: Option<Node>): Option<seq<WalkEntry>>
  {
    match root
    case Some(Directory(readable, children)) => Some(if readable then DirectoryEntries(path, children) else [])
    case _ => None
  }

  /** The paths of the entries that are regular files, in walk order. */
  function RegularPaths(entries: seq<WalkEntry>): (paths: seq<Path>)
    ensures |paths| <= |entries|
    ensures forall p :: p in paths ==> exists e :: e in entries && e.path == p && e.node.Regular?
  {
    if entries == [] then []
    else
      var e := entries[|entries| - 1];
      RegularPaths(entries[..|entries| - 1]) + (if e.node.Regular? then [e.path] else [])
  }

  // ---------------------------------------------------------------------------
  // The worker

  /** What one worker iteration adds for a popped path: nothing when the path
      is no longer a regular file, otherwise its record. */
  function WorkerRecord(filePath: Path, disk: map<Path, Node>, calculateHash: bool, engine: DigestEngine): (records: seq<FileInfo>)
    ensures |records| == (if IsRegularFile(disk, filePath) then 1 else 0)
    ensures records != [] ==> records[0].path == filePath
  {
    if !IsRegularFile(disk, filePath) then []
    else
      var hash := if calculateHash then Sha256HexAsWritten(OpenFile(disk, filePath), engine) else "";
      [FileInfo(FileName(filePath), filePath, |disk[filePath].content|, hash)]
  }

  /** The records a worker appends while draining `paths`, in pop order. */
  function WorkerRecords(paths: seq<Path>, disk: map<Path, Node>, calculateHash: bool, engine: DigestEngine): seq<FileInfo>
  {
    if paths == [] then []
    else
      WorkerRecords(paths[..|paths| - 1], disk, calculateHash, engine)
      + WorkerRecord(paths[|paths| - 1], disk, calculateHash, engine)
  }

  lemma WorkerRecordsStep(paths: seq<Path>, filePath: Path, disk: map<Path, Node>, calculateHash: bool, engine: DigestEngine)
    ensures WorkerRecords(paths + [filePath], disk, calculateHash, engine)
      == WorkerRecords(paths, disk, calculateHash, engine) + WorkerRecord(filePath, disk, calculateHash, engine)
  {
    assert (paths + [filePath])[..|paths|] == paths;
  }

  /** Every record describes a queued path that is still a regular file: its
      file name, its size and, only when hashing, its hash. */
  lemma {:induction false} WorkerRecordsDescribeFiles(paths: seq<Path>, disk: map<Path, Node>, calculateHash: bool, engine: DigestEngine)
    ensures |WorkerRecords(paths, disk, calculateHash, engine)| <= |paths|
    ensures forall r :: r in WorkerRecords(paths, disk, calculateHash, engine) ==>
      && r.path in paths && IsRegularFile(disk, r.path)
      && r.name == FileName(r.path) && r.size == |disk[r.path].content|
      && r.hash == (if calculateHash then Sha256HexAsWritten(OpenFile(disk, r.path), engine) else "")
  {
    if paths != [] {
      var init := paths[..|paths| - 1];
      WorkerRecordsDescribeFiles(init, disk, calculateHash, engine);
      assert forall p :: p in init ==> p in paths;
    }
  }

  /** When every queued path is still a regular file, there is one record per
      path, in queue order. */
  lemma {:induction false} WorkerRecordsOnePerPath(paths: seq<Path>, disk: map<Path, Node>, calculateHash: bool, engine: DigestEngine)
    requires forall p :: p in paths ==> IsRegularFile(disk, p)
    ensures |WorkerRecords(paths, disk, calculateHash, engine)| == |paths|
    ensures forall i :: 0 <= i < |paths| ==> WorkerRecords(paths, disk, calculateHash, engine)[i].path == paths[i]
  {
    if paths != [] {
      var init := paths[..|paths| - 1];
      var last := paths[|paths| - 1];
      assert forall p :: p in init ==> p in paths;
      WorkerRecordsOnePerPath(init, disk, calculateHash, engine);
      var before := WorkerRecords(init, disk, calculateHash, engine);
      var added := WorkerRecord(last, disk, calculateHash, engine);
      assert last in paths;
      assert |added| == 1;
      assert WorkerRecords(paths, disk, calculateHash, engine) == before + added;
      forall i | 0 <= i < |paths|
        ensures WorkerRecords(paths, disk, calculateHash, engine)[i].path == paths[i]
      {
        if i < |init| {
          assert (before + added)[i] == before[i];
        } else {
          assert (before + added)[i] == added[0];
        }
      }
    }
  }

  /** A record's hash is "" whenever hashing is off. */
  lemma NoHashWithoutCalculateHash(paths: seq<Path>, disk: map<Path, Node>, engine: DigestEngine)
    ensures forall r :: r in WorkerRecords(paths, disk, false, engine) ==> r.hash == ""
  {
    WorkerRecordsDescribeFiles(paths, disk, false, engine);
  }

  // ---------------------------------------------------------------------------
  // The scanner

  /** The scanner's state: the collected records and the path queue. */
  datatype ScanState = ScanState(files: seq<FileInfo>, queue: seq<Path>)

  /** What `scanDirectory` does to the state, and whether it returns normally
      (`false`: the iterator threw `filesystem_error`). All paths are queued
      first; with at least one thread, the queue is then drained into `files`;
      with none (a `threadCount` of 0, as `hardware_concurrency()` may report)
      the paths stay queued. */
  function ScanDirectorySpec(st: ScanState, path: Path, threadCount: int, calculateHash: bool,
                             root: Option<Node>, disk: map<Path, Node>, engine: DigestEngine): (bool, ScanState)
  {
    match IteratorEntries(path, root)
    case None => (false, st)
    case Some(entries) =>
      var queue := st.queue + RegularPaths(entries);
      if threadCount > 0 then (true, ScanState(st.files + WorkerRecords(queue, disk, calculateHash, engine), []))
      else (true, ScanState(st.files, queue))
  }

  /** `std::string::find(c, from)`: the first position at or after `from`
      holding `c`; `None` for `npos`. */
  function Find(s: string, c: char, from: nat): (r: Option<nat>)
    ensures r.Some? ==> from <= r.value < |s| && s[r.value] == c
    ensures r.Some? ==> forall i :: from <= i < r.value ==> s[i] != c
    ensures r.None? ==> forall i :: from <= i < |s| ==> s[i] != c
    decreases |s| - from
  {
    if from >= |s| then None
    else if s[from] == c then Some(from)
    else Find(s, c, from + 1)
  }

  /** One line of `/proc/mounts` as `scanDisk` reads it: the text from the
      first '/' up to the next space; `None` when either is missing. */
  function ParseMountLine(line: string): (partition: Option<Path>)
    ensures partition.Some? ==> partition.value != [] && partition.value[0] == '/' && ' ' !in partition.value
  {
    match Find(line, '/', 0)
    case None => None
    case Some(start) =>
      match Find(line, ' ', start)
      case None => None
      case Some(end) => Some(line[start..end])
  }

  /** A line yields a partition exactly when some '/' is followed, later on,
      by a space. */
  lemma ParseMountLineDefined(line: string)
    ensures ParseMountLine(line).Some? <==>
      exists start, end :: 0 <= start < end < |line| && line[start] == '/' && line[end] == ' '
  {
    if exists start, end :: 0 <= start < end < |line| && line[start] == '/' && line[end] == ' ' {
      var start, end :| 0 <= start < end < |line| && line[start] == '/' && line[end] == ' ';
      var first := Find(line, '/', 0);
      assert first.Some? && first.value <= start;
      assert Find(line, ' ', first.value).Some?;
    }
  }

  /** The partition, stated by how the line is laid out: a prefix without '/',
      then the field (from that first '/' to just before a space), then the
      rest of the line. */
  lemma ParseMountLineOf(prefix: string, field: string, rest: string)
    requires '/' !in prefix && field != [] && field[0] == '/' && ' ' !in field
    ensures ParseMountLine(prefix + field + " " + rest) == Some(field)
  {
    var line := prefix + field + " " + rest;
    var start := |prefix|;
    var end := |prefix| + |field|;
    assert line[start] == '/' && line[end] == ' ';
    assert forall i :: 0 <= i < start ==> line[i] == prefix[i];
    assert Find(line, '/', 0) == Some(start);
    assert forall i :: start <= i < end ==> line[i] == field[i - start];
    assert Find(line, ' ', start) == Some(end);
    assert line[start..end] == field;
  }

  /** For an ordinary device-backed mount, the field picked is the device
      path, not the mount point. */
  lemma DeviceFieldScanned()
    ensures ParseMountLine("/dev/sda1 / ext4 rw,relatime 0 0") == Some("/dev/sda1")
  {
    ParseMountLineOf("", "/dev/sda1", "/ ext4 rw,relatime 0 0");
    assert "" + "/dev/sda1" + " " + "/ ext4 rw,relatime 0 0" == "/dev/sda1 / ext4 rw,relatime 0 0";
  }

  /** The mount point, the second space-separated field of a mount line,
      which is the directory `scanDisk` evidently means to scan. */
  function MountPoint(line: string): (mountPoint: Option<Path>)
    ensures mountPoint.Some? ==> ' ' !in mountPoint.value
  {
    match Find(line, ' ', 0)
    case None => None
    case Some(first) =>
      match Find(line, ' ', first + 1)
      case None => None
      case Some(second) => Some(line[first + 1..second])
  }

  lemma MountPointOfLine(device: string, mountPoint: string, rest: string)
    requires ' ' !in device && ' ' !in mountPoint
    ensures MountPoint(device + " " + mountPoint + " " + rest) == Some(mountPoint)
  {
    var line := device + " " + mountPoint + " " + rest;
    var first := |device|;
    var second := |device| + 1 + |mountPoint|;
    assert forall i :: 0 <= i < first ==> line[i] == device[i];
    assert line[first] == ' ' && line[second] == ' ';
    assert Find(line, ' ', 0) == Some(first);
    assert forall i :: first + 1 <= i < second ==> line[i] == mountPoint[i - first - 1];
    assert Find(line, ' ', first + 1) == Some(second);
    assert line[first + 1..second] == mountPoint;
  }

  /** What `scanDisk` does on Linux: for each mount line with a partition,
      `scanDirectory(partition, hardwareConcurrency, false)`; an exception
      from one of them leaves `scanDisk`. `roots` gives the tree
      at each path. */
  function ScanDiskSpec(st: ScanState, lines: seq<string>, hardwareConcurrency: nat,
                        roots: map<Path, Node>, disk: map<Path, Node>, engine: DigestEngine): (bool, ScanState)
    decreases lines
  {
    if lines == [] then (true, st)
    else
      match ParseMountLine(lines[0])
      case None => ScanDiskSpec(st, lines[1..], hardwareConcurrency, roots, disk, engine)
      case Some(partition) =>
        var root := if partition in roots then Some(roots[partition]) else None;
        var (ok, next) := ScanDirectorySpec(st, partition, hardwareConcurrency, false, root, disk, engine);
        if !ok then (false, next)
        else ScanDiskSpec(next, lines[1..], hardwareConcurrency, roots, disk, engine)
  }

  /** Everything `scanDisk` adds has an empty hash: it never hashes. */
  lemma {:induction false} ScanDiskNeverHashes(st: ScanState, lines: seq<string>, hardwareConcurrency: nat,
                                                roots: map<Path, Node>, disk: map<Path, Node>, engine: DigestEngine)
    requires forall r :: r in st.files ==> r.hash == ""
    decreases lines
    ensures forall r :: r in ScanDiskSpec(st, lines, hardwareConcurrency, roots, disk, engine).1.files ==> r.hash == ""
  {
    if lines != [] {
      match ParseMountLine(lines[0])
      case None =>
        ScanDiskNeverHashes(st, lines[1..], hardwareConcurrency, roots, disk, engine);
      case Some(partition) =>
        var root := if partition in roots then Some(roots[partition]) else None;
        var (ok, next) := ScanDirectorySpec(st, partition, hardwareConcurrency, false, root, disk, engine);
        match IteratorEntries(partition, root)
        case None =>
        case Some(entries) =>
          NoHashWithoutCalculateHash(st.queue + RegularPaths(entries), disk, engine);
        if ok {
          ScanDiskNeverHashes(next, lines[1..], hardwareConcurrency, roots, disk, engine);
        }
    }
  }

  class FileScanner {
    var files: seq<FileInfo>
    var fileQueue: seq<Path>

    function State(): ScanState
      reads this
    {
      ScanState(files, fileQueue)
    }

    constructor ()
      ensures files == [] && fileQueue == []
    {
      files, fileQueue := [], [];
    }

    /** `getFiles`. */
    function GetFiles(): seq<FileInfo>
      reads this
    {
      files
    }

    /** The producer loop of `scanDirectory`: every entry the walk classifies
        as a regular file is pushed onto the queue, in walk order. */
    method EnqueueRegularFiles(entries: seq<WalkEntry>)
      modifies this
      ensures fileQueue == old(fileQueue) + RegularPaths(entries)
      ensures files == old(files)
    {
      for i := 0 to |entries|
        invariant fileQueue == old(fileQueue) + RegularPaths(entries[..i])
        invariant files == old(files)
      {
        if entries[i].node.Regular? {
          fileQueue := fileQueue + [entries[i].path];
        }
        assert entries[..i + 1][..i] == entries[..i];
      }
      assert entries[..|entries|] == entries;
    }

    /** The body of one worker thread: pop the front path until the queue is
        empty; skip a path that is no longer a regular file; otherwise append
        one record, leaving the earlier ones as they are. */
    method RunWorker(calculateHash: bool, disk: map<Path, Node>, engine: DigestEngine)
      modifies this
      ensures fileQueue == []
      ensures files == old(files) + WorkerRecords(old(fileQueue), disk, calculateHash, engine)
    {
      ghost var popped: seq<Path> := [];
      ghost var stored: seq<FileInfo> := [];
      while true
        invariant old(fileQueue) == popped + fileQueue
        invariant stored == WorkerRecords(popped, disk, calculateHash, engine)
        invariant files == old(files) + stored
        decreases |fileQueue|
      {
        if fileQueue == [] {
          break;
        }
        var filePath := fileQueue[0];
        fileQueue := fileQueue[1..];
        WorkerRecordsStep(popped, filePath, disk, calculateHash, engine);
        popped := popped + [filePath];
        stored := stored + WorkerRecord(filePath, disk, calculateHash, engine);
        if !IsRegularFile(disk, filePath) {
          continue;
        }
        var info := DescribeFile(filePath, calculateHash, disk, engine);
        files := files + [info];
      }
      assert popped == old(fileQueue);
    }

    /** The record a worker builds for a path that is still a regular file:
        its file name, its size and, only when hashing, its hash. */
    method DescribeFile(filePath: Path, calculateHash: bool, disk: map<Path, Node>, engine: DigestEngine)
      returns (info: FileInfo)
      requires IsRegularFile(disk, filePath)
      ensures [info] == WorkerRecord(filePath, disk, calculateHash, engine)
    {
      var fileName := FileName(filePath);
      var fileSize := |disk[filePath].content|;
      var fileHash := "";
      if calculateHash {
        fileHash := CalculateSha256(disk, filePath, engine);
      }
      info := FileInfo(fileName, filePath, fileSize, fileHash);
    }

    /** `scanDirectory(path, threadCount, calculateHash)`: `root` is the tree at
        `path` while it is walked, `disk` the filesystem as the workers find
        it. The threads run one after another: the first drains the queue and
        the others find it empty. Returns false where the iterator throws. */
    method ScanDirectory(path: Path, threadCount: int, calculateHash: bool,
                         root: Option<Node>, disk: map<Path, Node>, engine: DigestEngine) returns (ok: bool)
      modifies this
      ensures (ok, State()) == ScanDirectorySpec(old(State()), path, threadCount, calculateHash, root, disk, engine)
    {
      var entries := IteratorEntries(path, root);
      if entries.None? {
        assert ScanDirectorySpec(old(State()), path, threadCount, calculateHash, root, disk, engine) == (false, State());
        return false;
      }
      EnqueueRegularFiles(entries.value);
      ghost var queued := fileQueue;
      assert queued == old(fileQueue) + RegularPaths(entries.value);
      var i := 0;
      while i < threadCount
        invariant 0 <= i && (i == 0 || i <= threadCount)
        invariant i == 0 ==> files == old(files) && fileQueue == queued
        invariant i > 0 ==> fileQueue == [] && files == old(files) + WorkerRecords(queued, disk, calculateHash, engine)
      {
        RunWorker(calculateHash, disk, engine);
        assert WorkerRecords([], disk, calculateHash, engine) == [];
        i := i + 1;
      }
      ok := true;
      assert ScanDirectorySpec(old(State()), path, threadCount, calculateHash, root, disk, engine)
          == (true, if threadCount > 0 then ScanState(old(files) + WorkerRecords(queued, disk, calculateHash, engine), [])
                    else ScanState(old(files), queued));
    }

    /** `scanDrive(drive)`: a scan without hashing on every hardware thread. */
    method ScanDrive(drive: Path, hardwareConcurrency: nat, root: Option<Node>,
                     disk: map<Path, Node>, engine: DigestEngine) returns (ok: bool)
      modifies this
      ensures (ok, State()) == ScanDirectorySpec(old(State()), drive, hardwareConcurrency, false, root, disk, engine)
    {
      ok := ScanDirectory(drive, hardwareConcurrency, false, root, disk, engine);
    }

    /** `scanDisk` on Linux: the `getline` loop over `/proc/mounts`. */
    method ScanDisk(mountLines: seq<string>, hardwareConcurrency: nat, roots: map<Path, Node>,
                    disk: map<Path, Node>, engine: DigestEngine) returns (ok: bool)
      modifies this
      ensures (ok, State()) == ScanDiskSpec(old(State()), mountLines, hardwareConcurrency, roots, disk, engine)
    {
      var i := 0;
      while i < |mountLines|
        invariant i <= |mountLines|
        invariant ScanDiskSpec(old(State()), mountLines, hardwareConcurrency, roots, disk, engine)
               == ScanDiskSpec(State(), mountLines[i..], hardwareConcurrency, roots, disk, engine)
      {
        var partition := ParseMountLine(mountLines[i]);
        if partition.Some? {
          var root := if partition.value in roots then Some(roots[partition.value]) else None;
          ok := ScanDirectory(partition.value, hardwareConcurrency, false, root, disk, engine);
          if !ok {
            return;
          }
        }
        i := i + 1;
      }
      ok := true;
    }
  }
}
