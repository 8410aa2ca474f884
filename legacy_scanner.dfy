/** The legacy C scanner: its argument loop, the recursive `readdir` walk
    that stores records in a growing array, its hashing routine and the
    quadratic pairwise duplicate reports. */
module LegacyScanner {
  import opened Wrappers
  import opened FileModel
  import opened HexEncoding
  import opened Streams
  import opened DuplicateDetection

  // ---------------------------------------------------------------------------
  // Arguments

  datatype LegacyOptions = LegacyOptions(path: string, calculateHash: bool)

  /** The argument loop from position `i` on, given the path and mode found so
      far: "-p" takes the next argument as the path, "-n" and "-h" set the
      mode, anything else (a trailing "-p" included) is skipped. */
  function ArgumentLoop(argv: seq<string>, i: nat, path: Option<string>, calculateHash: bool): (Option<string>, bool)
    decreases |argv| - i
  {
    if i >= |argv| then (path, calculateHash)
    else if argv[i] == "-p" && i + 1 < |argv| then ArgumentLoop(argv, i + 2, Some(argv[i + 1]), calculateHash)
    else if argv[i] == "-n" then ArgumentLoop(argv, i + 1, path, false)
    else if argv[i] == "-h" then ArgumentLoop(argv, i + 1, path, true)
    else ArgumentLoop(argv, i + 1, path, calculateHash)
  }

  /** The options `main` runs with; `None` where it prints usage or "Path not
      provided" and returns 1. */
  function LegacyArguments(argv: seq<string>): Option<LegacyOptions>
  {
    if |argv| < 3 then None
    else
      var (path, calculateHash) := ArgumentLoop(argv, 1, None, false);
      if path.None? then None else Some(LegacyOptions(path.value, calculateHash))
  }

  method ParseArguments(argv: seq<string>) returns (options: Option<LegacyOptions>)
    ensures options == LegacyArguments(argv)
  {
    if |argv| < 3 {
      return None;
    }
    var path: Option<string> := None;
    var calculateHash := false;
    var i := 1;
    while i < |argv|
      invariant 1 <= i
      invariant ArgumentLoop(argv, 1, None, false) == ArgumentLoop(argv, i, path, calculateHash)
    {
      if argv[i] == "-p" && i + 1 < |argv| {
        i := i + 1;
        path := Some(argv[i]);
      } else if argv[i] == "-n" {
        calculateHash := false;
      } else if argv[i] == "-h" {
        calculateHash := true;
      }
      i := i + 1;
    }
    if path.None? {
      return None;
    }
    options := Some(LegacyOptions(path.value, calculateHash));
  }

  /** The path comes from an argument right after a "-p". */
  lemma {:induction false} ArgumentLoopPath(argv: seq<string>, i: nat, path: Option<string>, calculateHash: bool)
    requires i >= 1
    requires path.Some? ==> exists k :: 1 <= k < |argv| - 1 && argv[k] == "-p" && argv[k + 1] == path.value
    ensures var (p, _) := ArgumentLoop(argv, i, path, calculateHash);
      p.Some? ==> exists k :: 1 <= k < |argv| - 1 && argv[k] == "-p" && argv[k + 1] == p.value
    decreases |argv| - i
  {
    if i < |argv| {
      if argv[i] == "-p" && i + 1 < |argv| {
        ArgumentLoopPath(argv, i + 2, Some(argv[i + 1]), calculateHash);
      } else if argv[i] == "-n" {
        ArgumentLoopPath(argv, i + 1, path, false);
      } else if argv[i] == "-h" {
        ArgumentLoopPath(argv, i + 1, path, true);
      } else {
        ArgumentLoopPath(argv, i + 1, path, calculateHash);
      }
    }
  }

  /** Accepted options always name a path given after "-p"; fewer than three
      argv entries, or no "-p" with a following argument, are errors. */
  lemma LegacyArgumentsPath(argv: seq<string>)
    ensures |argv| < 3 ==> LegacyArguments(argv).None?
    ensures LegacyArguments(argv).Some? ==>
      exists k :: 1 <= k < |argv| - 1 && argv[k] == "-p" && argv[k + 1] == LegacyArguments(argv).value.path
  {
    if |argv| >= 3 {
      ArgumentLoopPath(argv, 1, None, false);
      var (path, _) := ArgumentLoop(argv, 1, None, false);
      assert LegacyArguments(argv).Some? ==> LegacyArguments(argv).value.path == path.value;
    }
  }

  /** After the path, the last of a run of mode flags wins. */
  lemma {:induction false} LastModeWins(prog: string, path: string, flags: seq<string>)
    requires flags != [] && forall k :: 0 <= k < |flags| ==> flags[k] == "-n" || flags[k] == "-h"
    ensures LegacyArguments([prog, "-p", path] + flags) == Some(LegacyOptions(path, flags[|flags| - 1] == "-h"))
  {
    var argv := [prog, "-p", path] + flags;
    assert ArgumentLoop(argv, 1, None, false) == ArgumentLoop(argv, 3, Some(path), false);
    ModeFlagsLoop(argv, 3, path, false);
  }

  lemma {:induction false} ModeFlagsLoop(argv: seq<string>, i: nat, path: string, calculateHash: bool)
    requires i < |argv|
    requires forall k :: i <= k < |argv| ==> argv[k] == "-n" || argv[k] == "-h"
    ensures ArgumentLoop(argv, i, Some(path), calculateHash) == (Some(path), argv[|argv| - 1] == "-h")
    decreases |argv| - i
  {
    if i + 1 < |argv| {
      ModeFlagsLoop(argv, i + 1, path, argv[i] == "-h");
    }
  }

  /** A token that is not a flag, inserted at a position the loop examines
      (so not the slot right after a "-p", which would take it as the path),
      changes nothing from that position on. */
  lemma {:induction false} UnknownArgumentIgnored(argv: seq<string>, i: nat, token: string, path: Option<string>, calculateHash: bool)
    requires 1 <= i <= |argv|
    requires token != "-p" && token != "-n" && token != "-h"
    ensures ArgumentLoop(argv[..i] + [token] + argv[i..], i, path, calculateHash) == ArgumentLoop(argv, i, path, calculateHash)
  {
    var extended := argv[..i] + [token] + argv[i..];
    assert extended[i] == token;
    assert extended[i + 1..] == argv[i..];
    LoopOnSuffix(extended, argv, i + 1, i, path, calculateHash);
  }

  /** On a whole command line `prog -p PATH ...`: a token that is not a flag,
      inserted right after the path, leaves the options unchanged. */
  lemma TokenAfterPathIgnored(argv: seq<string>, token: string)
    requires |argv| >= 3 && argv[1] == "-p"
    requires token != "-p" && token != "-n" && token != "-h"
    ensures LegacyArguments(argv[..3] + [token] + argv[3..]) == LegacyArguments(argv)
  {
    var extended := argv[..3] + [token] + argv[3..];
    assert extended[1] == "-p" && extended[2] == argv[2];
    assert ArgumentLoop(extended, 1, None, false) == ArgumentLoop(extended, 3, Some(argv[2]), false);
    assert ArgumentLoop(argv, 1, None, false) == ArgumentLoop(argv, 3, Some(argv[2]), false);
    UnknownArgumentIgnored(argv, 3, token, Some(argv[2]), false);
  }

  /** The loop depends only on the arguments it has not reached yet. */
  lemma {:induction false} LoopOnSuffix(a: seq<string>, b: seq<string>, i: nat, j: nat, path: Option<string>, calculateHash: bool)
    requires i <= |a| && j <= |b| && a[i..] == b[j..]
    ensures ArgumentLoop(a, i, path, calculateHash) == ArgumentLoop(b, j, path, calculateHash)
    decreases |a| - i
  {
    if i < |a| {
      assert a[i] == b[j];
      assert a[i + 1..] == b[j + 1..];
      if a[i] == "-p" && i + 1 < |a| {
        assert a[i + 1] == b[j + 1];
        assert a[i + 2..] == b[j + 2..];
        LoopOnSuffix(a, b, i + 2, j + 2, Some(a[i + 1]), calculateHash);
      } else if a[i] == "-n" {
        LoopOnSuffix(a, b, i + 1, j + 1, path, false);
      } else if a[i] == "-h" {
        LoopOnSuffix(a, b, i + 1, j + 1, path, true);
      } else {
        LoopOnSuffix(a, b, i + 1, j + 1, path, calculateHash);
      }
    }
  }

  // ---------------------------------------------------------------------------
  // Hashing

  /** The C string held by a character buffer: everything before the first
      NUL. */
  function CString(buffer: seq<char>): string
  {
    if buffer == [] || buffer[0] == '\0' then [] else [buffer[0]] + CString(buffer[1..])
  }

  lemma {:induction false} CStringOfTerminated(s: string, rest: seq<char>)
    requires '\0' !in s
    ensures CString(s + ['\0'] + rest) == s
  {
    if s != [] {
      assert (s + ['\0'] + rest)[1..] == s[1..] + ['\0'] + rest;
      CStringOfTerminated(s[1..], rest);
    }
  }

  /** What the legacy `calculateSHA256` leaves in its output buffer, read as a
      C string: "ERROR" when the file cannot be opened, otherwise the 64-digit
      lower-case hex digest of every byte of the file. */
  function LegacyHashString(file: Option<Bytes>, sha256: Bytes -> Digest): string
  {
    if file.None? then "ERROR" else Hex(sha256(file.value))
  }

  lemma LegacyHashStringFormat(file: Option<Bytes>, sha256: Bytes -> Digest)
    ensures file.None? ==> LegacyHashString(file, sha256) == "ERROR"
    ensures file.Some? ==>
      |LegacyHashString(file, sha256)| == 64 && forall i :: 0 <= i < 64 ==> IsLowerHexDigit(LegacyHashString(file, sha256)[i])
  {
    if file.Some? {
      HexIsLowerCase(sha256(file.value));
    }
  }

  /** The legacy `calculateSHA256`: `fopen` failure writes "ERROR"; otherwise
      every `fread` chunk, the last partial one included, is fed to the digest,
      each digest byte is `sprintf`ed as two hex digits and index 64 gets the
      terminator. */
  method CalculateSha256(file: Option<Bytes>, sha256: Bytes -> Digest, outputHash: array<char>)
    requires outputHash.Length >= 65
    modifies outputHash
    ensures file.None? ==> outputHash[..6] == "ERROR\0"
    ensures file.Some? ==> outputHash[..64] == Hex(sha256(file.value)) && outputHash[64] == '\0'
    ensures CString(outputHash[..]) == LegacyHashString(file, sha256)
  {
    if file.None? {
      outputHash[0] := 'E';
      outputHash[1] := 'R';
      outputHash[2] := 'R';
      outputHash[3] := 'O';
      outputHash[4] := 'R';
      outputHash[5] := '\0';
      assert outputHash[..] == outputHash[..5] + ['\0'] + outputHash[6..];
      CStringOfTerminated("ERROR", outputHash[6..]);
      return;
    }
    var stream := new CFile(file.value);
    var fed := FeedFile(stream);
    var hash := sha256(fed);
    WriteHexDigest(hash, outputHash);
    HexHasNoNul(hash);
    assert outputHash[..] == outputHash[..64] + ['\0'] + outputHash[65..];
    CStringOfTerminated(outputHash[..64], outputHash[65..]);
  }

  /** The `fread` loop of `calculateSHA256`: chunks of `ChunkSize` bytes are
      fed to the digest until a read returns nothing. */
  method FeedFile(stream: CFile) returns (fed: Bytes)
    requires stream.Valid() && stream.pos == 0
    modifies stream
    ensures fed == stream.data
  {
    fed := [];
    while true
      invariant stream.Valid()
      invariant fed == stream.data[..stream.pos]
      decreases |stream.data| - stream.pos
    {
      var buffer := stream.Fread(ChunkSize);
      if |buffer| == 0 {
        break;
      }
      fed := fed + buffer;
    }
  }

  /** The `sprintf("%02x")` loop of `calculateSHA256`: two lower-case hex
      digits per digest byte, then the terminator at index 64. */
  method WriteHexDigest(hash: Digest, outputHash: array<char>)
    requires outputHash.Length >= 65
    modifies outputHash
    ensures outputHash[..64] == Hex(hash) && outputHash[64] == '\0'
  {
    var hashLength := |hash|;
    for i := 0 to hashLength
      invariant outputHash[..2 * i] == Hex(hash[..i])
    {
      var hex := ByteToHex(hash[i]);
      outputHash[2 * i] := hex[0];
      outputHash[2 * i + 1] := hex[1];
      outputHash[2 * i + 2] := '\0';
      assert hash[..i + 1][..i] == hash[..i];
      assert outputHash[..2 * (i + 1)] == outputHash[..2 * i] + hex;
    }
    outputHash[64] := '\0';
    assert hash[..hashLength] == hash;
  }

  // ---------------------------------------------------------------------------
  // The walk

  /** The records the recursive walk stores for the directory `node` found at
      `directory`, in `readdir` order: nothing when it cannot be opened. */
  function LegacyRecords(directory: Path, node: Node, calculateHash: bool, sha256: Bytes -> Digest): seq<FileInfo>
    decreases node
  {
    match node
    case Directory(readable, children) => if readable then EntriesRecords(directory, children, calculateHash, sha256) else []
    case _ => []
  }

  function EntriesRecords(directory: Path, entries: seq<Entry>, calculateHash: bool, sha256: Bytes -> Digest): seq<FileInfo>
    decreases entries
  {
    if entries == [] then []
    else
      EntriesRecords(directory, entries[..|entries| - 1], calculateHash, sha256)
      + EntryRecords(directory, entries[|entries| - 1], calculateHash, sha256)
  }

  /** One `readdir` entry: "." and ".." are skipped, a directory is recursed
      into, a regular file gives one record, anything else nothing. */
  function EntryRecords(directory: Path, entry: Entry, calculateHash: bool, sha256: Bytes -> Digest): seq<FileInfo>
    decreases entry
  {
    if IsDotEntry(entry.name) then []
    else
      var filePath := JoinPath(directory, entry.name);
      match entry.node
      case Directory(_, _) => LegacyRecords(filePath, entry.node, calculateHash, sha256)
      case Regular(readable, content) =>
        var hash := if calculateHash then LegacyHashString(if readable then Some(content) else None, sha256) else "";
        [FileInfo(entry.name, filePath, |content|, hash)]
      case Special => []
  }

  lemma {:induction false} EntriesRecordsAppend(directory: Path, a: seq<Entry>, b: seq<Entry>, calculateHash: bool, sha256: Bytes -> Digest)
    ensures EntriesRecords(directory, a + b, calculateHash, sha256)
         == EntriesRecords(directory, a, calculateHash, sha256) + EntriesRecords(directory, b, calculateHash, sha256)
  {
    if b == [] {
      assert a + b == a;
    } else {
      assert (a + b)[..|a + b| - 1] == a + b[..|b| - 1];
      EntriesRecordsAppend(directory, a, b[..|b| - 1], calculateHash, sha256);
    }
  }

  lemma LegacyRecordsOfDirectory(directory: Path, node: Node, calculateHash: bool, sha256: Bytes -> Digest)
    requires node.Directory? && node.readable
    ensures LegacyRecords(directory, node, calculateHash, sha256)
         == EntriesRecords(directory, node.children[..|node.children|], calculateHash, sha256)
  {
    assert node.children[..|node.children|] == node.children;
  }

  lemma EntriesRecordsStep(directory: Path, entries: seq<Entry>, k: nat, calculateHash: bool, sha256: Bytes -> Digest)
    requires k < |entries|
    ensures EntriesRecords(directory, entries[..k + 1], calculateHash, sha256)
         == EntriesRecords(directory, entries[..k], calculateHash, sha256) + EntryRecords(directory, entries[k], calculateHash, sha256)
  {
    assert entries[..k + 1][..k] == entries[..k];
  }

  /** A directory that cannot be opened contributes nothing, and the scan of
      its siblings goes on as if it were not there. */
  lemma UnopenableDirectorySkipped(directory: Path, before: seq<Entry>, name: string, children: seq<Entry>,
                                   after: seq<Entry>, calculateHash: bool, sha256: Bytes -> Digest)
    ensures EntriesRecords(directory, before + [Entry(name, Directory(false, children))] + after, calculateHash, sha256)
         == EntriesRecords(directory, before + after, calculateHash, sha256)
  {
    var skipped := Entry(name, Directory(false, children));
    EntriesRecordsAppend(directory, before + [skipped], after, calculateHash, sha256);
    EntriesRecordsAppend(directory, before, [skipped], calculateHash, sha256);
    EntriesRecordsAppend(directory, before, after, calculateHash, sha256);
    assert [skipped][..0] == [];
    assert LegacyRecords(JoinPath(directory, name), Directory(false, children), calculateHash, sha256) == [];
    assert EntriesRecords(directory, [skipped], calculateHash, sha256) == [];
  }

  /** Every stored record is a regular file under a name other than "." or
      "..", stored under the path `directory/name`; its hash is "" exactly
      when hashing is off. */
  lemma {:induction false} LegacyRecordsShape(directory: Path, node: Node, calculateHash: bool, sha256: Bytes -> Digest)
    ensures forall r :: r in LegacyRecords(directory, node, calculateHash, sha256) ==>
      && !IsDotEntry(r.name)
      && |r.path| > |r.name| && r.path[|r.path| - |r.name| - 1..] == "/" + r.name
      && (r.hash == "" <==> !calculateHash)
    decreases node, 1
  {
    match node
    case Directory(readable, children) =>
      if readable {
        EntriesRecordsShape(directory, children, calculateHash, sha256);
      }
    case _ =>
  }

  lemma {:induction false} EntriesRecordsShape(directory: Path, entries: seq<Entry>, calculateHash: bool, sha256: Bytes -> Digest)
    ensures forall r :: r in EntriesRecords(directory, entries, calculateHash, sha256) ==>
      && !IsDotEntry(r.name)
      && |r.path| > |r.name| && r.path[|r.path| - |r.name| - 1..] == "/" + r.name
      && (r.hash == "" <==> !calculateHash)
    decreases entries, 0
  {
    if entries != [] {
      var entry := entries[|entries| - 1];
      EntriesRecordsShape(directory, entries[..|entries| - 1], calculateHash, sha256);
      if !IsDotEntry(entry.name) {
        var filePath := JoinPath(directory, entry.name);
        match entry.node
        case Directory(_, _) =>
          LegacyRecordsShape(filePath, entry.node, calculateHash, sha256);
        case Regular(readable, content) =>
          var file := if readable then Some(content) else None;
          LegacyHashStringFormat(file, sha256);
          assert filePath[|filePath| - |entry.name| - 1..] == "/" + entry.name;
        case Special =>
      }
    }
  }

  // ---------------------------------------------------------------------------
  // The record array

  const CapacityStep: nat := 100000

  /** The allocated capacity after `count` records: 100000 at the start, and
      100000 more each time `count` reaches a multiple of 100000. */
  function Capacity(count: nat): nat
    decreases count
  {
    if count < CapacityStep then CapacityStep else Capacity(count - CapacityStep) + CapacityStep
  }

  /** The capacity is the next multiple of 100000 strictly above the count. */
  lemma {:induction false} CapacityIsNextMultiple(count: nat)
    ensures Capacity(count) == (count / CapacityStep + 1) * CapacityStep
    decreases count
  {
    if count >= CapacityStep {
      CapacityIsNextMultiple(count - CapacityStep);
      assert (count - CapacityStep) / CapacityStep + 1 == count / CapacityStep;
    }
  }

  /** The capacity always exceeds the count, by at most 100000, so every store
      is in bounds. */
  lemma {:induction false} CapacityExceedsCount(count: nat)
    ensures Capacity(count) > count
    ensures Capacity(count) - count <= CapacityStep
    decreases count
  {
    if count >= CapacityStep {
      CapacityExceedsCount(count - CapacityStep);
    }
  }

  /** Storing one more record keeps the capacity, except when the count reaches
      a multiple of 100000, where it grows to count + 100000. */
  lemma {:induction false} CapacityAfterStore(count: nat)
    ensures (count + 1) % CapacityStep == 0 ==> Capacity(count + 1) == count + 1 + CapacityStep
    ensures (count + 1) % CapacityStep != 0 ==> Capacity(count + 1) == Capacity(count)
    decreases count
  {
    if count + 1 == CapacityStep {
      assert Capacity(count + 1) == Capacity(0) + CapacityStep;
    } else if count >= CapacityStep {
      CapacityAfterStore(count - CapacityStep);
      assert (count + 1 - CapacityStep) % CapacityStep == (count + 1) % CapacityStep;
    }
  }

  /** The `FileInfo *files` array and `fileCount` of the legacy scan. */
  class LegacyFileTable {
    var files: array<FileInfo>
    var fileCount: nat
    /** The records stored so far, in store order. */
    ghost var contents: seq<FileInfo>

    /** The array has the capacity the growth rule gives for the count, and
        its first `fileCount` slots hold the stored records. */
    ghost predicate Valid()
      reads this, files
    {
      && files.Length == Capacity(fileCount)
      && fileCount < files.Length
      && files[..fileCount] == contents
    }

    /** `malloc(100000 * sizeof(FileInfo))` with `fileCount = 0`. */
    constructor ()
      ensures Valid() && fresh(files)
      ensures fileCount == 0 && files.Length == CapacityStep && contents == []
    {
      files := new FileInfo[CapacityStep](_ => FileInfo("", "", 0, ""));
      fileCount := 0;
      contents := [];
    }

    /** The store at index `fileCount`, the increment, and the `realloc` to
        `fileCount + 100000` slots when the count reaches a multiple of
        100000. */
    method StoreRecord(record: FileInfo)
      requires Valid()
      modifies this, files
      ensures Valid()
      ensures files == old(files) || fresh(files)
      ensures contents == old(contents) + [record]
    {
      CapacityExceedsCount(fileCount);
      CapacityExceedsCount(fileCount + 1);
      CapacityAfterStore(fileCount);
      files[fileCount] := record;
      fileCount := fileCount + 1;
      contents := contents + [record];
      if fileCount % CapacityStep == 0 {
        var grown := new FileInfo[fileCount + CapacityStep](_ => record);
        forall i | 0 <= i < files.Length {
          grown[i] := files[i];
        }
        files := grown;
      }
    }

    /** The legacy `scanDirectory` on the directory `node` found at
        `directory`. */
    method ScanDirectory(directory: Path, node: Node, calculateHash: bool, sha256: Bytes -> Digest)
      requires Valid()
      modifies this, files
      ensures Valid()
      ensures files == old(files) || fresh(files)
      ensures contents == old(contents) + LegacyRecords(directory, node, calculateHash, sha256)
      decreases node
    {
      if !node.Directory? || !node.readable {
        assert LegacyRecords(directory, node, calculateHash, sha256) == [];
        return;
      }
      var entries := node.children;
      ghost var stored: seq<FileInfo> := [];
      var k := 0;
      while k < |entries|
        invariant k <= |entries|
        invariant Valid()
        invariant files == old(files) || fresh(files)
        invariant stored == EntriesRecords(directory, entries[..k], calculateHash, sha256)
        invariant contents == old(contents) + stored
      {
        EntriesRecordsStep(directory, entries, k, calculateHash, sha256);
        ghost var before := contents;
        ScanEntry(directory, entries[k], calculateHash, sha256);
        ghost var added := EntryRecords(directory, entries[k], calculateHash, sha256);
        assert contents == old(contents) + (stored + added) by {
          assert contents == before + added;
        }
        stored := stored + added;
        k := k + 1;
      }
      LegacyRecordsOfDirectory(directory, node, calculateHash, sha256);
    }

    /** The body of the `readdir` loop for one entry. */
    method ScanEntry(directory: Path, entry: Entry, calculateHash: bool, sha256: Bytes -> Digest)
      requires Valid()
      modifies this, files
      ensures Valid()
      ensures files == old(files) || fresh(files)
      ensures contents == old(contents) + EntryRecords(directory, entry, calculateHash, sha256)
      decreases entry
    {
      if IsDotEntry(entry.name) {
        return;
      }
      var filePath := JoinPath(directory, entry.name);
      match entry.node {
        case Directory(_, _) =>
          ScanDirectory(filePath, entry.node, calculateHash, sha256);
        case Regular(readable, content) =>
          var hash := "";
          if calculateHash {
            var hashBuffer := new char[65];
            CalculateSha256(if readable then Some(content) else None, sha256, hashBuffer);
            hash := CString(hashBuffer[..]);
          }
          StoreRecord(FileInfo(entry.name, filePath, |content|, hash));
        case Special =>
      }
    }
  }

  // ---------------------------------------------------------------------------
  // Pairwise duplicates

  /** The pairs (i, j) with i < j < `j_end` reported in row i: the later
      records sharing record i's key, by increasing j. */
  function RowPairs(files: seq<FileInfo>, s: Strategy, i: nat, jEnd: nat): seq<(nat, nat)>
    requires i < |files| && jEnd <= |files|
    decreases jEnd
  {
    if jEnd <= i + 1 then []
    else
      RowPairs(files, s, i, jEnd - 1)
      + (if KeyOf(s, files[i]) == KeyOf(s, files[jEnd - 1]) then [(i, jEnd - 1)] else [])
  }

  /** The pairs reported by the rows before `n`. */
  function PairsBefore(files: seq<FileInfo>, s: Strategy, n: nat): seq<(nat, nat)>
    requires n <= |files|
  {
    if n == 0 then [] else PairsBefore(files, s, n - 1) + RowPairs(files, s, n - 1, |files|)
  }

  /** Everything the nested loops report. */
  function DuplicatePairs(files: seq<FileInfo>, s: Strategy): seq<(nat, nat)>
  {
    PairsBefore(files, s, |files|)
  }

  /** `findDuplicatesByName`: returns the reported index pairs instead of
      printing the two records of each. */
  method FindDuplicatesByName(files: array<FileInfo>, fileCount: nat) returns (pairs: seq<(nat, nat)>)
    requires fileCount <= files.Length
    ensures pairs == DuplicatePairs(files[..fileCount], ByName)
  {
    ghost var records := files[..fileCount];
    pairs := [];
    for i := 0 to fileCount
      invariant pairs == PairsBefore(records, ByName, i)
    {
      for j := i + 1 to fileCount
        invariant pairs == PairsBefore(records, ByName, i) + RowPairs(records, ByName, i, j)
      {
        if files[i].name == files[j].name {
          pairs := pairs + [(i, j)];
        }
      }
    }
  }

  /** `findDuplicatesByContent`: the same loops comparing the hash strings. */
  method FindDuplicatesByContent(files: array<FileInfo>, fileCount: nat) returns (pairs: seq<(nat, nat)>)
    requires fileCount <= files.Length
    ensures pairs == DuplicatePairs(files[..fileCount], ByContent)
  {
    ghost var records := files[..fileCount];
    pairs := [];
    for i := 0 to fileCount
      invariant pairs == PairsBefore(records, ByContent, i)
    {
      for j := i + 1 to fileCount
        invariant pairs == PairsBefore(records, ByContent, i) + RowPairs(records, ByContent, i, j)
      {
        if files[i].hash == files[j].hash {
          pairs := pairs + [(i, j)];
        }
      }
    }
  }

  lemma {:induction false} RowPairsMembership(files: seq<FileInfo>, s: Strategy, i: nat, jEnd: nat)
    requires i < |files| && jEnd <= |files|
    ensures forall p :: p in RowPairs(files, s, i, jEnd) <==>
      p.0 == i && i < p.1 < jEnd && KeyOf(s, files[i]) == KeyOf(s, files[p.1])
    decreases jEnd
  {
    if jEnd > i + 1 {
      RowPairsMembership(files, s, i, jEnd - 1);
      var prefix: seq<(nat, nat)> := RowPairs(files, s, i, jEnd - 1);
      var added: seq<(nat, nat)> := if KeyOf(s, files[i]) == KeyOf(s, files[jEnd - 1]) then [(i, jEnd - 1)] else [];
      assert RowPairs(files, s, i, jEnd) == prefix + added;
      forall p: (nat, nat)
        ensures p in prefix + added <==> p.0 == i && i < p.1 < jEnd && KeyOf(s, files[i]) == KeyOf(s, files[p.1])
      {
        assert p in prefix + added <==> p in prefix || p in added;
      }
    } else {
      assert RowPairs(files, s, i, jEnd) == [];
    }
  }

  lemma {:induction false} RowPairsBounds(files: seq<FileInfo>, s: Strategy, i: nat, jEnd: nat)
    requires i < |files| && jEnd <= |files|
    ensures forall a :: 0 <= a < |RowPairs(files, s, i, jEnd)| ==>
      RowPairs(files, s, i, jEnd)[a].0 == i && i < RowPairs(files, s, i, jEnd)[a].1 < jEnd
    decreases jEnd
  {
    if jEnd > i + 1 {
      RowPairsBounds(files, s, i, jEnd - 1);
      var prefix := RowPairs(files, s, i, jEnd - 1);
      var added: seq<(nat, nat)> := if KeyOf(s, files[i]) == KeyOf(s, files[jEnd - 1]) then [(i, jEnd - 1)] else [];
      assert RowPairs(files, s, i, jEnd) == prefix + added;
      forall a | 0 <= a < |prefix + added|
        ensures (prefix + added)[a].0 == i && i < (prefix + added)[a].1 < jEnd
      {
        if a < |prefix| {
          assert (prefix + added)[a] == prefix[a];
        } else {
          assert (prefix + added)[a] == added[0];
        }
      }
    } else {
      assert RowPairs(files, s, i, jEnd) == [];
    }
  }

  lemma {:induction false} RowPairsOrdered(files: seq<FileInfo>, s: Strategy, i: nat, jEnd: nat)
    requires i < |files| && jEnd <= |files|
    ensures forall a, b :: 0 <= a < b < |RowPairs(files, s, i, jEnd)| ==>
      RowPairs(files, s, i, jEnd)[a].1 < RowPairs(files, s, i, jEnd)[b].1
    decreases jEnd
  {
    if jEnd > i + 1 {
      RowPairsOrdered(files, s, i, jEnd - 1);
      RowPairsBounds(files, s, i, jEnd - 1);
      var prefix := RowPairs(files, s, i, jEnd - 1);
      var added: seq<(nat, nat)> := if KeyOf(s, files[i]) == KeyOf(s, files[jEnd - 1]) then [(i, jEnd - 1)] else [];
      assert RowPairs(files, s, i, jEnd) == prefix + added;
      forall a, b | 0 <= a < b < |prefix + added|
        ensures (prefix + added)[a].1 < (prefix + added)[b].1
      {
        assert (prefix + added)[a] == prefix[a];
        if b < |prefix| {
          assert (prefix + added)[b] == prefix[b];
        } else {
          assert (prefix + added)[b] == added[0];
        }
      }
    } else {
      assert RowPairs(files, s, i, jEnd) == [];
    }
  }

  lemma {:induction false} PairsBeforeMembership(files: seq<FileInfo>, s: Strategy, n: nat)
    requires n <= |files|
    ensures forall p :: p in PairsBefore(files, s, n) <==>
      p.0 < n && p.0 < p.1 < |files| && KeyOf(s, files[p.0]) == KeyOf(s, files[p.1])
  {
    if n > 0 {
      PairsBeforeMembership(files, s, n - 1);
      RowPairsMembership(files, s, n - 1, |files|);
      var before: seq<(nat, nat)> := PairsBefore(files, s, n - 1);
      var row: seq<(nat, nat)> := RowPairs(files, s, n - 1, |files|);
      assert PairsBefore(files, s, n) == before + row;
      forall p: (nat, nat)
        ensures p in before + row <==>
          p.0 < n && p.0 < p.1 < |files| && KeyOf(s, files[p.0]) == KeyOf(s, files[p.1])
      {
        assert p in before + row <==> p in before || p in row;
      }
    }
  }

  lemma {:induction false} PairsBeforeRows(files: seq<FileInfo>, s: Strategy, n: nat)
    requires n <= |files|
    ensures forall a :: 0 <= a < |PairsBefore(files, s, n)| ==> PairsBefore(files, s, n)[a].0 < n
  {
    if n > 0 {
      PairsBeforeRows(files, s, n - 1);
      RowPairsBounds(files, s, n - 1, |files|);
      var before: seq<(nat, nat)> := PairsBefore(files, s, n - 1);
      var row: seq<(nat, nat)> := RowPairs(files, s, n - 1, |files|);
      assert PairsBefore(files, s, n) == before + row;
      forall a | 0 <= a < |before + row|
        ensures (before + row)[a].0 < n
      {
        if a < |before| {
          assert (before + row)[a] == before[a];
        } else {
          assert (before + row)[a] == row[a - |before|];
        }
      }
    }
  }

  lemma {:induction false} PairsBeforeOrdered(files: seq<FileInfo>, s: Strategy, n: nat)
    requires n <= |files|
    ensures forall a, b :: 0 <= a < b < |PairsBefore(files, s, n)| ==>
      LexLess(PairsBefore(files, s, n)[a], PairsBefore(files, s, n)[b])
  {
    if n > 0 {
      PairsBeforeOrdered(files, s, n - 1);
      PairsBeforeRows(files, s, n - 1);
      RowPairsBounds(files, s, n - 1, |files|);
      RowPairsOrdered(files, s, n - 1, |files|);
      var before: seq<(nat, nat)> := PairsBefore(files, s, n - 1);
      var row: seq<(nat, nat)> := RowPairs(files, s, n - 1, |files|);
      assert PairsBefore(files, s, n) == before + row;
      forall a, b | 0 <= a < b < |before + row|
        ensures LexLess((before + row)[a], (before + row)[b])
      {
        if b < |before| {
          assert (before + row)[a] == before[a] && (before + row)[b] == before[b];
        } else if a < |before| {
          assert (before + row)[a] == before[a] && (before + row)[b] == row[b - |before|];
        } else {
          assert (before + row)[a] == row[a - |before|] && (before + row)[b] == row[b - |before|];
        }
      }
    }
  }

  predicate LexLess(p: (nat, nat), q: (nat, nat))
  {
    p.0 < q.0 || (p.0 == q.0 && p.1 < q.1)
  }

  /** The reported pairs are exactly the pairs i < j of records with equal
      keys, each once, ordered by i and then j. */
  lemma DuplicatePairsSpec(files: seq<FileInfo>, s: Strategy)
    ensures forall p :: p in DuplicatePairs(files, s) <==>
      p.0 < p.1 < |files| && KeyOf(s, files[p.0]) == KeyOf(s, files[p.1])
    ensures forall a, b :: 0 <= a < b < |DuplicatePairs(files, s)| ==>
      LexLess(DuplicatePairs(files, s)[a], DuplicatePairs(files, s)[b])
  {
    PairsBeforeMembership(files, s, |files|);
    PairsBeforeOrdered(files, s, |files|);
  }

  /** The pairwise detector and the grouping one agree: a pair is reported
      exactly when both records fall in the same reported group. */
  lemma PairsAgreeWithGroups(files: seq<FileInfo>, s: Strategy, i: nat, j: nat)
    requires i < j < |files|
    ensures (i, j) in DuplicatePairs(files, s) <==>
      && KeyOf(s, files[i]) in DuplicateDetection.FindDuplicates(s, files)
      && files[i] in DuplicateDetection.FindDuplicates(s, files)[KeyOf(s, files[i])]
      && files[j] in DuplicateDetection.FindDuplicates(s, files)[KeyOf(s, files[i])]
  {
    DuplicatePairsSpec(files, s);
    var k := KeyOf(s, files[i]);
    ReportedIffShared(files, s, k);
    EachRecordInExactlyOneGroup(files, s, i);
    EachRecordInExactlyOneGroup(files, s, j);
  }

  /** Two files the legacy scanner cannot open both hash to "ERROR" and are
      reported as duplicates by content. */
  lemma UnreadableFilesReportedAsDuplicates(files: seq<FileInfo>, i: nat, j: nat)
    requires i < j < |files| && files[i].hash == "ERROR" && files[j].hash == "ERROR"
    ensures (i, j) in DuplicatePairs(files, ByContent)
  {
    DuplicatePairsSpec(files, ByContent);
  }

  // ---------------------------------------------------------------------------
  // The program

  /** How a run of the legacy `main` ends: usage or "Path not provided"
      (exit status 1), or the stored records and the reported pairs. */
  datatype LegacyOutcome =
    | LegacyUsage
    | LegacyCompleted(files: seq<FileInfo>, pairs: seq<(nat, nat)>)

  /** The run on `argv`, where `roots` gives the tree at each path (a path
      missing from it cannot be opened). */
  function LegacyRunSpec(argv: seq<string>, roots: map<Path, Node>, sha256: Bytes -> Digest): LegacyOutcome
  {
    match LegacyArguments(argv)
    case None => LegacyUsage
    case Some(options) =>
      var files := if options.path in roots then LegacyRecords(options.path, roots[options.path], options.calculateHash, sha256) else [];
      LegacyCompleted(files, DuplicatePairs(files, if options.calculateHash then ByContent else ByName))
  }

  method RunLegacyScanner(argv: seq<string>, roots: map<Path, Node>, sha256: Bytes -> Digest) returns (outcome: LegacyOutcome)
    ensures outcome == LegacyRunSpec(argv, roots, sha256)
  {
    var options := ParseArguments(argv);
    if options.None? {
      return LegacyUsage;
    }
    var path, calculateHash := options.value.path, options.value.calculateHash;
    var table := new LegacyFileTable();
    if path in roots {
      table.ScanDirectory(path, roots[path], calculateHash, sha256);
      assert [] + LegacyRecords(path, roots[path], calculateHash, sha256) == LegacyRecords(path, roots[path], calculateHash, sha256);
    }
    var files := table.files[..table.fileCount];
    var pairs;
    if calculateHash {
      pairs := FindDuplicatesByContent(table.files, table.fileCount);
    } else {
      pairs := FindDuplicatesByName(table.files, table.fileCount);
    }
    outcome := LegacyCompleted(files, pairs);
  }

  /** A stored record has an empty hash exactly when the run is in name
      mode. */
  lemma LegacyRunHashes(argv: seq<string>, roots: map<Path, Node>, sha256: Bytes -> Digest)
    requires LegacyRunSpec(argv, roots, sha256).LegacyCompleted?
    ensures forall r :: r in LegacyRunSpec(argv, roots, sha256).files ==>
      (r.hash == "" <==> !LegacyArguments(argv).value.calculateHash)
  {
    var options := LegacyArguments(argv).value;
    if options.path in roots {
      LegacyRecordsShape(options.path, roots[options.path], options.calculateHash, sha256);
    }
  }
}
