# Duplicate-files scanner, modelled in Dafny

The scanner walks a directory tree, records one `FileInfo` (name, path, size,
SHA-256 hash string) per regular file, and reports files that share a name
or a hash. This project models two versions of it.

The C++ version:
- `FileScanner`: the walk, the path queue drained by one worker, the hashing
  routine and the `/proc/mounts` parser.
- The two grouping strategies, `ByNameStrategy` and `ByContentStrategy`,
  including `compareFiles`.
- `DuplicateDetectorFactory::create`.
- `main`: argument validation, choice of mode and thread count, and the
  hand-off to the strategy.

The legacy C version:
- The argument loop.
- The recursive `readdir` walk that stores records in an array grown by
  100000 slots at a time.
- The `fread`/`sprintf` hashing routine.
- The quadratic pairwise duplicate reports.

The filesystem is an abstract tree (`FileModel.Node`): regular files with
their bytes, directories with their entries in listing order, and other
kinds of entries. The C++ workers look paths up again in a separate map,
`disk`, so a file that changed after the walk is modelled too. SHA-256 is an
uninterpreted function from bytes to 32-byte digests, given as a parameter.
Whether an OpenSSL digest context can be set up is a flag beside it. Printing
is replaced by return values: the reported groups (a map from key to members
in input order) or the reported index pairs.

The model mirrors how the source is built:
- Stateful code is `class`es with loops and invariants: the scanner's queue
  and `files` vector, the stream objects `compareFiles` reads, the legacy
  array and its count, and the output hash buffer.
- Each such method is proved equal to a specification function, except
  `compareFiles` and its loop, whose contracts state the outcome directly: it never
  returns true.
- The properties are proved as lemmas about those functions.

Relations proved between the two versions:
- For a root that is a directory, given without a trailing `/`, and entry
  names that are nonempty and do not end in `/`, both walks visit the same regular
  files in the same order under the same paths.
- The pairwise detectors report a pair exactly when both records fall in the
  same group of the grouping detectors.
- Every command line the C++ `main` accepts is read the same way by the
  legacy loop.

## Model

| member | source | states |
|---|---|---|
| FileModel.JoinPath | c/legacy-scanner.c:89 | the legacy child path is the directory, one `/`, then the entry name |
| FileModel.AppendPath | c++/FileScanner.cpp:68 | an iterator path ends in the entry name, and adds exactly one `/` when the directory is nonempty and does not end in one |
| FileModel.FileNameIsLastComponent | c++/FileScanner.cpp:90 | `filename()` has no `/`, is a suffix of the path, and is preceded by a `/` when it is not the whole path |
| FileModel.FileNameOfJoin | c++/FileScanner.cpp:90 | the file name of a joined path is the name that was joined |
| FileModel.OpenFile | c++/FileScanner.cpp:16-17 | opening gives the file's bytes exactly when the path is a readable regular file |
| HexEncoding.Hex | c++/FileScanner.cpp:31-37 | the hex string has two characters per digest byte |
| HexEncoding.HexAt | c++/FileScanner.cpp:34 | byte k becomes its high then its low nibble digit, at positions 2k and 2k+1 |
| HexEncoding.HexIsLowerCase | c++/FileScanner.cpp:34 | every character is one of `0-9a-f` |
| HexEncoding.HexDigitInAlphabet | c++/FileScanner.cpp:34 | `%02x` writes the value v as the v-th character of `0123456789abcdef`, and those are exactly the lower-case hex digits |
| HexEncoding.UnhexHex | c++/FileScanner.cpp:31-37 | decoding the hex string gives back the digest bytes |
| HexEncoding.HexInjective | c++/FileScanner.cpp:31-37 | different digests never give the same hex string |
| HexEncoding.HexHasNoNul | c/legacy-scanner.c:148-151 | the hex digits contain no NUL, so the C string ends at the terminator written at index 64 |
| Streams.InputFileStream.Read | c++/ByContentStrategy.cpp:31 | `istream::read`: a full read advances by n; a short one reads the rest and sets eof and fail; on a failed stream it reads nothing |
| Streams.CFile.Fread | c/legacy-scanner.c:139 | `fread` returns the next min(n, remaining) bytes and advances past them |
| DuplicateDetection.Members | c++/ByNameStrategy.cpp:6-8 | a group holds only input records whose key is the group key |
| DuplicateDetection.Reported | c++/ByNameStrategy.cpp:10-11 | a group is reported exactly when it has more than one member, unchanged |
| DuplicateDetection.GroupMapIsPartition | c++/ByNameStrategy.cpp:6-8 | the map has one group per key present in the input, and each group is the records with that key |
| DuplicateDetection.EachRecordInExactlyOneGroup | c++/ByNameStrategy.cpp:6-8 | every record is in the group of its own key and in no other group |
| DuplicateDetection.GroupKeepsInputOrder | c++/ByNameStrategy.cpp:6-7 | `push_back` appends a record to its group only, so each group is in input order |
| DuplicateDetection.GroupSizesSum | c++/ByNameStrategy.cpp:3-8 | the group sizes sum to the number of input records |
| DuplicateDetection.ReportedIffShared | c++/ByNameStrategy.cpp:10-11 | a key is reported exactly when two distinct input positions carry it |
| DuplicateDetection.ReportedGroupsShareKey | c++/ByNameStrategy.cpp:7 | a reported group has more than one member, all from the input with its key |
| DuplicateDetection.UniqueKeyNeverReported | c++/ByNameStrategy.cpp:10-11 | a record whose key no other record has is never reported |
| DuplicateDetection.DistinctKeysReportNothing | c++/ByNameStrategy.cpp:6-13 | pairwise-distinct keys, and the empty input, report nothing |
| DuplicateDetection.EmptyHashesShareOneGroup | c++/ByContentStrategy.cpp:8-13 | two or more records with an empty hash are reported together under the key "" |
| ByNameStrategy.FindDuplicates | c++/ByNameStrategy.cpp:3-18 | the map-building loop and the reporting loop yield exactly the groups of size > 1 keyed by name |
| ByContentStrategy.FindDuplicates | c++/ByContentStrategy.cpp:3-22 | the same loops keyed by hash string; `compareFiles` is not consulted |
| ByContentStrategy.CompareFiles | c++/ByContentStrategy.cpp:24-38 | returns false when either file fails to open, and in fact always returns false |
| ByContentStrategy.CompareStreams | c++/ByContentStrategy.cpp:31-37 | the loop exits with at most one stream at eof; when file1's read fails, file2 is untouched and still good |
| ByContentStrategy.CompareFilesConfirmed | c++/ByContentStrategy.cpp:24-38 | the intended comparison: true exactly when both files open and hold the same bytes |
| ByContentStrategy.CompareStreamsConfirmed | c++/ByContentStrategy.cpp:31-35 | reading both streams in lock-step and comparing every chunk decides byte equality |
| DetectorFactory.Create | c++/DuplicateDetectorFactory.cpp:3-11 | "-n" gives by-name, "-h" gives by-content, anything else the error "Unknown strategy type: " + input |
| DetectorFactory.CreateFlagRoundTrip | c++/DuplicateDetectorFactory.cpp:4-7 | each strategy has exactly one flag that selects it |
| DetectorFactory.ErrorNamesInput | c++/DuplicateDetectorFactory.cpp:8-9 | two rejected inputs give the same error only when they are the same input |
| FileScanner.FullChunkPrefix | c++/FileScanner.cpp:25-27 | the bytes fed are a prefix of the file, a whole number of chunks, short of the file by less than one chunk |
| FileScanner.HexString | c++/FileScanner.cpp:31-37 | the `hashString +=` loop builds the hex encoding of the digest |
| FileScanner.CalculateSha256 | c++/FileScanner.cpp:12-38 | the hash string: "" on open or init failure, otherwise the hex digest of the whole chunks only |
| FileScanner.CalculateSha256Complete | c++/FileScanner.cpp:25-27 | the loop that also feeds the final partial chunk hashes the whole file |
| FileScanner.HashStringFormat | c++/FileScanner.cpp:16-37 | the hash string is "" exactly on open or init failure, and otherwise 64 lower-case hex digits |
| FileScanner.ShortFilesShareDigest | c++/FileScanner.cpp:25-27 | any two files shorter than 8192 bytes get the same hash string, the digest of the empty input |
| FileScanner.TrailingBytesIgnored | c++/FileScanner.cpp:25-27 | files that agree on their whole chunks get the same hash string |
| FileScanner.CompleteHashDeterminedByDigest | c++/FileScanner.cpp:31-37 | equal complete hash strings come only from equal digests |
| FileScanner.RegularPaths | c++/FileScanner.cpp:68-73 | only entries classified as regular files are queued, each from a walk entry |
| FileScanner.WorkerRecord | c++/FileScanner.cpp:88-95 | a path that is no longer a regular file adds nothing; otherwise exactly one record for that path |
| FileScanner.WorkerRecordsDescribeFiles | c++/FileScanner.cpp:88-95 | every record is a queued regular file with its `filename()`, its size, and "" or its hash string |
| FileScanner.WorkerRecordsOnePerPath | c++/FileScanner.cpp:79-95 | when every queued path is still a regular file, one record per path in pop order |
| FileScanner.NoHashWithoutCalculateHash | c++/FileScanner.cpp:92 | without `calculateHash` every record's hash is "" |
| FileScanner.Find | c++/FileScanner.cpp:129-130 | `find(c, from)` is the first position at or after `from` holding `c`, or `npos` when there is none |
| FileScanner.ParseMountLine | c++/FileScanner.cpp:129-132 | a partition is nonempty, starts with `/` and holds no space |
| FileScanner.ParseMountLineDefined | c++/FileScanner.cpp:129-132 | a line yields a partition exactly when some `/` is later followed by a space |
| FileScanner.ParseMountLineOf | c++/FileScanner.cpp:129-132 | the partition runs from the first `/` up to the next space |
| FileScanner.DeviceFieldScanned | c++/FileScanner.cpp:129-132 | for `/dev/sda1 / ext4 ...` the parser yields the device `/dev/sda1` |
| FileScanner.MountPoint | c++/FileScanner.cpp:129-132 | the intended field, the mount point, holds no space |
| FileScanner.MountPointOfLine | c++/FileScanner.cpp:129-132 | the intended parser yields the second space-separated field |
| FileScanner.ScanDiskNeverHashes | c++/FileScanner.cpp:111-113 | `scanDrive` and `scanDisk` pass `calculateHash = false`, so they record no hash |
| FileScanner.FileScanner.constructor | c++/FileScanner.h:24-29 | a scanner starts with no records and an empty queue |
| FileScanner.FileScanner.EnqueueRegularFiles | c++/FileScanner.cpp:68-74 | the walk's regular-file paths are appended to the queue in walk order; `files` is unchanged |
| FileScanner.FileScanner.RunWorker | c++/FileScanner.cpp:79-95 | the worker pops from the front until the queue is empty, and appends the records for the popped paths after the earlier ones |
| FileScanner.FileScanner.DescribeFile | c++/FileScanner.cpp:88-95 | a path that is still a regular file is recorded with its `filename()`, its size and, only when hashing, its hash string |
| FileScanner.FileScanner.ScanDirectory | c++/FileScanner.cpp:67-103 | queue everything, then drain it with the first of `threadCount` workers; nothing is drained for `threadCount <= 0`; an invalid root throws |
| FileScanner.FileScanner.ScanDrive | c++/FileScanner.cpp:111-113 | a scan without hashing, with the hardware concurrency as thread count |
| FileScanner.FileScanner.ScanDisk | c++/FileScanner.cpp:125-136 | each mount line with a partition is scanned in turn; lines without one are skipped; an exception ends the loop |
| LegacyScanner.ParseArguments | c/legacy-scanner.c:24-49 | the argument loop computes the options of `LegacyArguments`, or the usage and missing-path errors |
| LegacyScanner.LegacyArgumentsPath | c/legacy-scanner.c:24-49 | fewer than three argv entries is an error, and an accepted path is the argument right after a "-p" |
| LegacyScanner.LastModeWins | c/legacy-scanner.c:36-43 | after the path, the last of several "-n"/"-h" flags decides the mode |
| LegacyScanner.UnknownArgumentIgnored | c/legacy-scanner.c:36-44 | a token that is not a flag, inserted at a position the loop examines (not the slot right after a "-p", which takes it as the path), changes nothing from there on |
| LegacyScanner.TokenAfterPathIgnored | c/legacy-scanner.c:36-44 | on `prog -p PATH ...`, a non-flag token inserted right after the path leaves the options unchanged |
| LegacyScanner.LegacyHashStringFormat | c/legacy-scanner.c:125-151 | the legacy hash is "ERROR" on open failure, otherwise 64 lower-case hex digits |
| LegacyScanner.CalculateSha256 | c/legacy-scanner.c:124-152 | "ERROR" on open failure, otherwise the hex digest of every byte of the file at indices 0-63, NUL at index 64 |
| LegacyScanner.FeedFile | c/legacy-scanner.c:138-141 | the `fread` loop feeds every byte of the file to the digest, in order, the last partial chunk included |
| LegacyScanner.WriteHexDigest | c/legacy-scanner.c:148-151 | the `sprintf` loop writes the hex encoding of the digest at indices 0-63 and the terminator at index 64 |
| LegacyScanner.UnopenableDirectorySkipped | c/legacy-scanner.c:77-81 | a directory that cannot be opened adds no records, and its siblings are scanned as if it were absent |
| LegacyScanner.LegacyRecordsShape | c/legacy-scanner.c:84-105 | "." and ".." are never recorded, records are stored under `directory/name`, and the hash is "" exactly when hashing is off |
| LegacyScanner.CapacityExceedsCount | c/legacy-scanner.c:51 | the capacity is always above the count, so every store is in bounds |
| LegacyScanner.CapacityAfterStore | c/legacy-scanner.c:107-109 | the capacity grows to count + 100000 exactly when the count reaches a multiple of 100000 |
| LegacyScanner.CapacityIsNextMultiple | c/legacy-scanner.c:107-109 | the capacity is always the least multiple of 100000 above the count |
| LegacyScanner.LegacyFileTable.constructor | c/legacy-scanner.c:51-57 | the table starts with 100000 slots and no records |
| LegacyScanner.LegacyFileTable.StoreRecord | c/legacy-scanner.c:97-115 | `contents` grows by exactly the record, the earlier records are kept across the `realloc`, and the capacity stays the next multiple of 100000 above the count |
| LegacyScanner.LegacyFileTable.ScanDirectory | c/legacy-scanner.c:75-121 | `contents` grows by exactly the recursive walk's records, in `readdir` order, and the table invariant holds |
| LegacyScanner.LegacyFileTable.ScanEntry | c/legacy-scanner.c:84-117 | one entry: dot entries skipped, a directory recursed into, a regular file stored with its hash or "" |
| LegacyScanner.FindDuplicatesByName | c/legacy-scanner.c:155-166 | the nested loops report the pair sequence of equal names |
| LegacyScanner.FindDuplicatesByContent | c/legacy-scanner.c:169-180 | the nested loops report the pair sequence of equal hash strings |
| LegacyScanner.DuplicatePairsSpec | c/legacy-scanner.c:157-163 | the pairs reported are exactly the i < j with equal keys, each once, ordered by i and then j |
| LegacyScanner.PairsAgreeWithGroups | c/legacy-scanner.c:157-163 | a pair is reported exactly when both records lie in the same reported group of the grouping detector |
| LegacyScanner.UnreadableFilesReportedAsDuplicates | c/legacy-scanner.c:171-176 | two records whose hash is "ERROR" are reported as duplicates by content |
| LegacyScanner.RunLegacyScanner | c/legacy-scanner.c:23-72 | parse, scan the path, and report by content when hashing and by name otherwise |
| LegacyScanner.LegacyRunHashes | c/legacy-scanner.c:101-105 | a stored hash is "" exactly in name mode |
| WalkComparison.ScannersVisitSameFiles | c/legacy-scanner.c:83-95 | the C++ queue and the legacy record paths coincide for a root without a trailing `/` |
| ScannerMain.ParseArguments | c++/main.cpp:15-35 | the validation loop computes `CommandLine`: usage for a count other than four, a rejected argument, or an empty path or mode |
| ScannerMain.CommandLineAccepts | c++/main.cpp:15-35 | accepted exactly `-p PATH MODE` and `MODE -p PATH` with a nonempty path (even "-n" or "-h"), a trailing "-p" rejected |
| ScannerMain.AcceptedModeHasStrategy | c++/main.cpp:53-59 | an accepted mode is "-n" or "-h", so the factory's exception cannot occur |
| ScannerMain.LegacyReadsAcceptedCommandLines | c/legacy-scanner.c:36-49 | the legacy loop reads every accepted command line with the same path, hashing exactly in "-h" mode |
| ScannerMain.Run | c++/main.cpp:14-62 | usage, the unhandled exception of an invalid root, or the groups the mode's strategy reports for the scanned files |
| ScannerMain.RunUsesMode | c++/main.cpp:39-40 | a run gets past parsing exactly for an accepted command line, uses the mode's strategy, and records no hash in name mode |
| ScannerMain.MissingRootTerminates | c++/main.cpp:46 | a path that is missing or not a directory ends the run with the iterator's exception |
| ScannerMain.ZeroConcurrencyRecordsNothing | c++/main.cpp:40 | in hash mode with a reported concurrency of 0, no file is recorded and nothing is reported |
| ScannerMain.CompletedRunRecordsEveryFile | c++/main.cpp:39-46 | with at least one worker and unchanged files, each queued file is recorded once, in walk order (one sequential worker) |

## Left out

- Threads, mutexes, the condition variable and `join`. `threadCount` workers run one after another, and the first one drains the queue.
- `FileScanner::workerThread` is never started by any code, so it is not part of this model.
- The OpenSSL calls: SHA-256 is a parameter (`DigestEngine`, or a bare function for the legacy scanner). A failed legacy `EVP_DigestInit_ex` is not modelled, since its result is never checked.
- Filesystem primitives are replaced by the tree and the `disk` map: `recursive_directory_iterator`, `is_regular_file`, `file_size`, `opendir`/`readdir`/`stat` and `ifstream`/`fopen`. Symbolic links, `stat` failures and I/O errors in the middle of a read are not modelled.
- Races between the walk and the workers are reduced to `disk` differing from the tree. A file that vanishes between `is_regular_file` and `file_size` (an exception) is not modelled.
- `skip_permission_denied` is modelled as skipping unreadable directories. Exceptions the iterator throws in the middle of a walk are not modelled; only an invalid root throws.
- `fs::path` normalisation beyond appending a separator, such as collapsing repeated separators and the `filename()` rules for special paths, is not modelled.
- Console output, the usage text and the `chrono` timing are replaced by return values.
- Windows drive enumeration in `scanDisk` is not modelled, and `/proc/mounts` is given as its lines.
- `malloc`/`realloc` failure paths are not modelled, nor `strcpy` overflow of the fixed `name[256]`, `path[1024]` and `filePath[1024]` buffers (the `snprintf` truncation included).
- The `int fileCount` overflow is not modelled; counts are unbounded.
- ByContentStrategy.CompareFilesConfirmed is the corrected comparison; nothing in the source calls `compareFiles`, so nothing in the model calls either version.
- FileScanner.FileScanner.ScanDisk uses the parser as written, ParseMountLine, to stay faithful to `scanDisk`; the corrected MountPoint is stated and proved beside it.
- FileScanner.FileScanner.RunWorker hashes with CalculateSha256, the loop as written, to stay faithful to `scanDirectory`; the corrected CalculateSha256Complete is proved beside it.
- ScannerMain.ThreadCount takes the hardware concurrency as a parameter, so the count `hardware_concurrency()` returns is not modelled; the value 0, which it may return, is covered.

## Findings

| source | as written | input that shows it | evidently intended | confidence | as-written member | corrected member |
|---|---|---|---|---|---|---|
| c++/ByContentStrategy.cpp:31-37 | file2 is read only after file1's read filled the buffer, and the loop ends with one stream failed and the other still good, so `file1.eof() && file2.eof()` is never true | any two files that open, e.g. two identical empty files (`ByContentStrategy.CompareStreams` ensures `!same` for all inputs) | true exactly when both files hold the same bytes | not executed | ByContentStrategy.CompareFiles | ByContentStrategy.CompareFilesConfirmed |
| c++/FileScanner.cpp:25-27 | `while (file.read(buffer, 8192))` feeds only chunks that filled the buffer, so the final partial chunk is dropped | the files `a` and `b` (one byte each) get the same hash string, the digest of the empty input (`FileScanner.ShortFilesShareDigest`) | the digest of the whole file | not executed | FileScanner.CalculateSha256 | FileScanner.CalculateSha256Complete |
| c++/FileScanner.cpp:129-132 | the substring from the first `/` to the next space is the device field of a device-backed mount | `/dev/sda1 / ext4 rw,relatime 0 0` yields `/dev/sda1` (`FileScanner.DeviceFieldScanned`) | the mount point, the second field (`/` here) | not executed | FileScanner.ParseMountLine | FileScanner.MountPoint |
