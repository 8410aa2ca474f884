/** The C++ `main`: the four-argument command line, the scan of the chosen
    path, and the strategy chosen by the mode flag. */
module ScannerMain {
  import opened Wrappers
  import opened FileModel
  import opened DuplicateDetection
  import DetectorFactory
  import FileScanner
  import ByNameStrategy
  import ByContentStrategy
  import LegacyScanner

  datatype Options = Options(path: string, mode: string)

  predicate IsMode(arg: string)
  {
    arg == "-n" || arg == "-h"
  }

  /** The argument loop from position `i` on, given the path and mode stored
      so far: "-p" with a following argument stores that argument as the path,
      a mode flag is stored as the mode, and any other argument (a trailing
      "-p" included) prints usage, here `None`. */
  function ArgumentLoop(argv: seq<string>, i: nat, path: string, mode: string): Option<Options>
    decreases |argv| - i
  {
    if i >= |argv| then Some(Options(path, mode))
    else if argv[i] == "-p" && i + 1 < |argv| then ArgumentLoop(argv, i + 2, argv[i + 1], mode)
    else if IsMode(argv[i]) then ArgumentLoop(argv, i + 1, path, argv[i])
    else None
  }

  /** The options `main` goes on with; `None` wherever it prints usage and
      returns 1: an argument count other than four, a rejected argument, or an
      empty path or mode. */
  function CommandLine(argv: seq<string>): Option<Options>
  {
    if |argv| != 4 then None
    else
      match ArgumentLoop(argv, 1, "", "")
      case None => None
      case Some(options) => if options.path == "" || options.mode == "" then None else Some(options)
  }

  method ParseArguments(argv: seq<string>) returns (options: Option<Options>)
    ensures options == CommandLine(argv)
  {
    if |argv| != 4 {
      return None;
    }
    var optionPath, optionMode := "", "";
    var i := 1;
    while i < |argv|
      invariant 1 <= i
      invariant ArgumentLoop(argv, 1, "", "") == ArgumentLoop(argv, i, optionPath, optionMode)
    {
      if argv[i] == "-p" && i + 1 < |argv| {
        i := i + 1;
        optionPath := argv[i];
      } else if IsMode(argv[i]) {
        optionMode := argv[i];
      } else {
        return None;
      }
      i := i + 1;
    }
    if optionPath == "" || optionMode == "" {
      return None;
    }
    options := Some(Options(optionPath, optionMode));
  }

  /** The accepted command lines are exactly `-p PATH MODE` and
      `MODE -p PATH` with a nonempty path. */
  lemma CommandLineAccepts(argv: seq<string>)
    ensures CommandLine(argv).Some? <==>
      |argv| == 4 &&
      ((argv[1] == "-p" && argv[2] != "" && IsMode(argv[3])) || (IsMode(argv[1]) && argv[2] == "-p" && argv[3] != ""))
    ensures |argv| == 4 && argv[1] == "-p" && argv[2] != "" && IsMode(argv[3]) ==>
      CommandLine(argv) == Some(Options(argv[2], argv[3]))
    ensures |argv| == 4 && IsMode(argv[1]) && argv[2] == "-p" && argv[3] != "" ==>
      CommandLine(argv) == Some(Options(argv[3], argv[1]))
  {
    if |argv| == 4 {
      if argv[1] == "-p" {
        assert ArgumentLoop(argv, 1, "", "") == ArgumentLoop(argv, 3, argv[2], "");
        assert ArgumentLoop(argv, 4, argv[2], argv[3]) == Some(Options(argv[2], argv[3]));
      } else if IsMode(argv[1]) {
        assert ArgumentLoop(argv, 1, "", "") == ArgumentLoop(argv, 2, "", argv[1]);
        if argv[2] == "-p" {
          assert ArgumentLoop(argv, 2, "", argv[1]) == ArgumentLoop(argv, 4, argv[3], argv[1]);
        } else if IsMode(argv[2]) {
          assert ArgumentLoop(argv, 2, "", argv[1]) == ArgumentLoop(argv, 3, "", argv[2]);
          assert ArgumentLoop(argv, 3, "", argv[2]).Some? ==> ArgumentLoop(argv, 3, "", argv[2]).value.path == "";
        }
      }
    }
  }

  /** The mode of an accepted command line is always one the factory knows,
      so the `catch` around `create` is never reached. */
  lemma AcceptedModeHasStrategy(argv: seq<string>)
    requires CommandLine(argv).Some?
    ensures IsMode(CommandLine(argv).value.mode)
    ensures DetectorFactory.Create(CommandLine(argv).value.mode).Ok?
  {
    CommandLineAccepts(argv);
  }

  /** Every command line the C++ `main` accepts is read the same way by the
      legacy scanner: same path, hashing exactly in "-h" mode. */
  lemma LegacyReadsAcceptedCommandLines(argv: seq<string>)
    requires CommandLine(argv).Some?
    ensures LegacyScanner.LegacyArguments(argv) ==
      Some(LegacyScanner.LegacyOptions(CommandLine(argv).value.path, CommandLine(argv).value.mode == "-h"))
  {
    CommandLineAccepts(argv);
    if argv[1] == "-p" {
      assert LegacyScanner.ArgumentLoop(argv, 1, None, false) == LegacyScanner.ArgumentLoop(argv, 3, Some(argv[2]), false);
      assert LegacyScanner.ArgumentLoop(argv, 3, Some(argv[2]), false) == LegacyScanner.ArgumentLoop(argv, 4, Some(argv[2]), argv[3] == "-h");
    } else {
      assert LegacyScanner.ArgumentLoop(argv, 1, None, false) == LegacyScanner.ArgumentLoop(argv, 2, None, argv[1] == "-h");
      assert LegacyScanner.ArgumentLoop(argv, 2, None, argv[1] == "-h") == LegacyScanner.ArgumentLoop(argv, 4, Some(argv[3]), argv[1] == "-h");
    }
  }

  /** How a run of `main` ends: usage printed (exit status 1), the uncaught
      `filesystem_error` of a path that is missing or not a directory, or the
      duplicate groups the chosen strategy prints, with the scanned files. */
  datatype Outcome =
    | Usage
    | Terminated
    | Completed(strategy: Strategy, files: seq<FileInfo>, duplicates: Groups)

  /** `hashMode` hashes and uses `hardwareConcurrency` workers; name mode
      does not hash and uses one. */
  function ThreadCount(calculateHash: bool, hardwareConcurrency: nat): int
  {
    if calculateHash then hardwareConcurrency else 1
  }

  function RootAt(roots: map<Path, Node>, path: Path): Option<Node>
  {
    if path in roots then Some(roots[path]) else None
  }

  /** The run of `main` on `argv`, where `roots` gives the tree at each path
      and `disk` what the workers find when they look a path up again. */
  function RunSpec(argv: seq<string>, hardwareConcurrency: nat, roots: map<Path, Node>,
                   disk: map<Path, Node>, engine: DigestEngine): Outcome
  {
    match CommandLine(argv)
    case None => Usage
    case Some(options) =>
      var calculateHash := options.mode == "-h";
      var (ok, st) := FileScanner.ScanDirectorySpec(FileScanner.ScanState([], []), options.path,
                        ThreadCount(calculateHash, hardwareConcurrency), calculateHash,
                        RootAt(roots, options.path), disk, engine);
      if !ok then Terminated
      else
        var strategy := if calculateHash then ByContent else ByName;
        Completed(strategy, st.files, DuplicateDetection.FindDuplicates(strategy, st.files))
  }

  method Run(argv: seq<string>, hardwareConcurrency: nat, roots: map<Path, Node>,
             disk: map<Path, Node>, engine: DigestEngine) returns (outcome: Outcome)
    ensures outcome == RunSpec(argv, hardwareConcurrency, roots, disk, engine)
  {
    var options := ParseArguments(argv);
    if options.None? {
      return Usage;
    }
    var optionPath, optionMode := options.value.path, options.value.mode;
    var scanner := new FileScanner.FileScanner();
    var calculateHash := optionMode == "-h";
    var threadCount := ThreadCount(calculateHash, hardwareConcurrency);
    var ok := scanner.ScanDirectory(optionPath, threadCount, calculateHash, RootAt(roots, optionPath), disk, engine);
    if !ok {
      return Terminated;
    }
    var files := scanner.GetFiles();
    AcceptedModeHasStrategy(argv);
    var strategy := DetectorFactory.Create(optionMode).value;
    var duplicates;
    match strategy {
      case ByName => duplicates := ByNameStrategy.FindDuplicates(files);
      case ByContent => duplicates := ByContentStrategy.FindDuplicates(files);
    }
    outcome := Completed(strategy, files, duplicates);
  }

  /** A run goes past argument parsing only with a path and a mode flag; it
      compares by content exactly in "-h" mode, and name mode never hashes. */
  lemma RunUsesMode(argv: seq<string>, hardwareConcurrency: nat, roots: map<Path, Node>,
                    disk: map<Path, Node>, engine: DigestEngine)
    ensures RunSpec(argv, hardwareConcurrency, roots, disk, engine) != Usage <==> CommandLine(argv).Some?
    ensures RunSpec(argv, hardwareConcurrency, roots, disk, engine).Completed? ==>
      var outcome := RunSpec(argv, hardwareConcurrency, roots, disk, engine);
      && DetectorFactory.Create(CommandLine(argv).value.mode) == Ok(outcome.strategy)
      && (outcome.strategy == ByName ==> forall r :: r in outcome.files ==> r.hash == "")
  {
    if CommandLine(argv).Some? {
      AcceptedModeHasStrategy(argv);
      var options := CommandLine(argv).value;
      var entries := FileScanner.IteratorEntries(options.path, RootAt(roots, options.path));
      if entries.Some? && options.mode == "-n" {
        var queue := FileScanner.RegularPaths(entries.value);
        assert [] + queue == queue;
        var records := FileScanner.WorkerRecords(queue, disk, false, engine);
        assert [] + records == records;
        FileScanner.NoHashWithoutCalculateHash(queue, disk, engine);
      }
    }
  }

  /** When the path to scan does not exist or is not a directory, the
      iterator's exception leaves `main` unhandled. */
  lemma MissingRootTerminates(argv: seq<string>, hardwareConcurrency: nat, roots: map<Path, Node>,
                              disk: map<Path, Node>, engine: DigestEngine)
    requires CommandLine(argv).Some?
    requires var path := CommandLine(argv).value.path; path !in roots || !roots[path].Directory?
    ensures RunSpec(argv, hardwareConcurrency, roots, disk, engine) == Terminated
  {
  }

  /** In hash mode with a reported concurrency of 0 no worker runs: nothing
      is recorded and no duplicates are reported. */
  lemma ZeroConcurrencyRecordsNothing(argv: seq<string>, roots: map<Path, Node>,
                                      disk: map<Path, Node>, engine: DigestEngine)
    requires CommandLine(argv).Some? && CommandLine(argv).value.mode == "-h"
    requires RunSpec(argv, 0, roots, disk, engine).Completed?
    ensures RunSpec(argv, 0, roots, disk, engine).files == []
    ensures RunSpec(argv, 0, roots, disk, engine).duplicates == map[]
  {
    DistinctKeysReportNothing([], ByContent);
  }

  /** When the files found by the walk are still regular files when the
      worker looks at them, a completed run records each exactly once, in
      walk order, and for at least one worker. */
  lemma CompletedRunRecordsEveryFile(argv: seq<string>, hardwareConcurrency: nat, roots: map<Path, Node>,
                                     disk: map<Path, Node>, engine: DigestEngine)
    requires RunSpec(argv, hardwareConcurrency, roots, disk, engine).Completed?
    requires var options := CommandLine(argv).value;
      options.mode == "-n" || hardwareConcurrency > 0
    requires var options := CommandLine(argv).value;
      var entries := FileScanner.IteratorEntries(options.path, RootAt(roots, options.path));
      entries.Some? && forall p :: p in FileScanner.RegularPaths(entries.value) ==> IsRegularFile(disk, p)
    ensures var options := CommandLine(argv).value;
      var paths := FileScanner.RegularPaths(FileScanner.IteratorEntries(options.path, RootAt(roots, options.path)).value);
      var files := RunSpec(argv, hardwareConcurrency, roots, disk, engine).files;
      |files| == |paths| && forall i :: 0 <= i < |paths| ==> files[i].path == paths[i]
  {
    var options := CommandLine(argv).value;
    var paths := FileScanner.RegularPaths(FileScanner.IteratorEntries(options.path, RootAt(roots, options.path)).value);
    assert [] + paths == paths;
    FileScanner.WorkerRecordsOnePerPath(paths, disk, options.mode == "-h", engine);
  }
}
