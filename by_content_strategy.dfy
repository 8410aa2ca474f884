/** The by-content strategy: files that share a hash string are duplicates.
    The byte comparison `compareFiles` is defined beside it but never called. */
module ByContentStrategy {
  import opened Wrappers
  import opened FileModel
  import opened Streams
  import opened DuplicateDetection

  /** `ByContentStrategy::findDuplicates`: the same two loops as the by-name
      strategy, keyed by the hash string. No file is read: the reported groups
      depend on hash-string equality alone. */
  method FindDuplicates(files: seq<FileInfo>) returns (reported: Groups)
    ensures reported == DuplicateDetection.FindDuplicates(ByContent, files)
  {
    var hashMap: Groups := map[];
    for i := 0 to |files|
      invariant hashMap == GroupMap(files[..i], ByContent)
    {
      var file := files[i];
      var group := if file.hash in hashMap then hashMap[file.hash] else [];
      hashMap := hashMap[file.hash := group + [file]];
      assert files[..i + 1][..i] == files[..i];
    }
    assert files[..|files|] == files;
    reported := map[];
    var unvisited := hashMap.Keys;
    while unvisited != {}
      invariant unvisited <= hashMap.Keys
      invariant reported == ReportedAmong(hashMap, hashMap.Keys - unvisited)
      decreases unvisited
    {
      var hash :| hash in unvisited;
      ReportedAmongStep(hashMap, hashMap.Keys - unvisited, hash);
      assert hashMap.Keys - (unvisited - {hash}) == (hashMap.Keys - unvisited) + {hash};
      if |hashMap[hash]| > 1 {
        reported := reported[hash := hashMap[hash]];
      }
      unvisited := unvisited - {hash};
    }
    ReportedAmongAll(hashMap);
    assert hashMap.Keys - unvisited == hashMap.Keys;
  }

  /** `compareFiles` as written: false when either file cannot be opened,
      otherwise the chunk loop. It never returns true. */
  method CompareFiles(disk: map<Path, Node>, filePath1: Path, filePath2: Path) returns (same: bool)
    ensures !same
  {
    var content1 := OpenFile(disk, filePath1);
    var content2 := OpenFile(disk, filePath2);
    if content1.None? || content2.None? {
      return false;
    }
    var file1 := new InputFileStream(content1.value);
    var file2 := new InputFileStream(content2.value);
    same := CompareStreams(file1, file2);
  }

  /** The loop of `compareFiles`: `file1.read(...) && file2.read(...)` reads
      file2 only when file1's read filled the buffer; the loop leaves with one
      stream failed and the other still good, so the closing
      `file1.eof() && file2.eof()` is false. */
  method CompareStreams(file1: InputFileStream, file2: InputFileStream) returns (same: bool)
    requires file1 != file2
    requires file1.Valid() && file2.Valid() && file1.Good() && file2.Good()
    requires file1.pos == file2.pos
    modifies file1, file2
    ensures file1.Valid() && file2.Valid()
    ensures !same
    ensures !(file1.eofBit && file2.eofBit)
    ensures file1.failBit ==> file2.Good() && file2.pos == file1.pos - file1.count
  {
    while true
      invariant file1.Valid() && file2.Valid() && file1.Good() && file2.Good()
      invariant file1.pos == file2.pos
      decreases |file1.data| - file1.pos
    {
      var buffer1 := file1.Read(ChunkSize);
      if !file1.Succeeded() {
        break;
      }
      var buffer2 := file2.Read(ChunkSize);
      if !file2.Succeeded() {
        break;
      }
      if file1.count != file2.count || buffer1 != buffer2 {
        return false;
      }
    }
    same := file1.eofBit && file2.eofBit;
  }

  /** The comparison `compareFiles` evidently intends: both files are read in
      lock-step, every pair of chunks is compared, including the final partial
      ones, and the files are the same exactly when their bytes are. */
  method CompareFilesConfirmed(disk: map<Path, Node>, filePath1: Path, filePath2: Path) returns (same: bool)
    ensures same <==> OpenFile(disk, filePath1).Some? && OpenFile(disk, filePath1) == OpenFile(disk, filePath2)
  {
    var content1 := OpenFile(disk, filePath1);
    var content2 := OpenFile(disk, filePath2);
    if content1.None? || content2.None? {
      return false;
    }
    var file1 := new InputFileStream(content1.value);
    var file2 := new InputFileStream(content2.value);
    same := CompareStreamsConfirmed(file1, file2);
  }

  method CompareStreamsConfirmed(file1: InputFileStream, file2: InputFileStream) returns (same: bool)
    requires file1 != file2
    requires file1.Valid() && file2.Valid() && file1.Good() && file2.Good()
    requires file1.pos == 0 && file2.pos == 0
    modifies file1, file2
    ensures same <==> file1.data == file2.data
  {
    while true
      invariant file1.Valid() && file2.Valid() && file1.Good() && file2.Good()
      invariant file1.pos == file2.pos
      invariant file1.data[..file1.pos] == file2.data[..file2.pos]
      decreases |file1.data| - file1.pos
    {
      ghost var at := file1.pos;
      var buffer1 := file1.Read(ChunkSize);
      var buffer2 := file2.Read(ChunkSize);
      if file1.count != file2.count || buffer1 != buffer2 {
        assert file1.data != file2.data;
        return false;
      }
      assert file1.data[..file1.pos] == file1.data[..at] + file1.data[at..file1.pos] == file1.data[..at] + buffer1;
      assert file2.data[..file2.pos] == file2.data[..at] + file2.data[at..file2.pos] == file2.data[..at] + buffer2;
      if !file1.Succeeded() || !file2.Succeeded() {
        assert file1.data == file1.data[..file1.pos];
        assert file2.data == file2.data[..file2.pos];
        break;
      }
    }
    same := file1.eofBit && file2.eofBit;
  }
}
