/** The C++ scanner's recursive directory iterator and the legacy scanner's
    `readdir` recursion visit the same regular files, in the same order,
    under the same paths, when the root is given without a trailing
    separator. */
module WalkComparison {
  import opened Wrappers
  import opened FileModel
  import FileScanner
  import LegacyScanner

  /** Every name in the tree is nonempty and does not end in a separator, as
      names returned by a directory listing are. */
  predicate WellNamed(node: Node)
    decreases node, 0
  {
    match node
    case Directory(_, children) => EntriesWellNamed(children)
    case _ => true
  }

  predicate EntriesWellNamed(entries: seq<Entry>)
    decreases entries, 1
  {
    forall k :: 0 <= k < |entries| ==> ValidName(entries[k].name) && WellNamed(entries[k].node)
  }

  predicate ValidName(name: string)
  {
    name != [] && name[|name| - 1] != '/'
  }

  /** A directory path to which both scanners add exactly one separator. */
  predicate PlainDirectoryPath(path: Path)
  {
    path != [] && path[|path| - 1] != '/'
  }

  function RecordPaths(records: seq<FileInfo>): (paths: seq<Path>)
    ensures |paths| == |records|
  {
    if records == [] then [] else RecordPaths(records[..|records| - 1]) + [records[|records| - 1].path]
  }

  lemma {:induction false} RecordPathsAppend(a: seq<FileInfo>, b: seq<FileInfo>)
    ensures RecordPaths(a + b) == RecordPaths(a) + RecordPaths(b)
  {
    if b == [] {
      assert a + b == a;
    } else {
      assert (a + b)[..|a + b| - 1] == a + b[..|b| - 1];
      RecordPathsAppend(a, b[..|b| - 1]);
    }
  }

  lemma {:induction false} RegularPathsAppend(a: seq<FileScanner.WalkEntry>, b: seq<FileScanner.WalkEntry>)
    ensures FileScanner.RegularPaths(a + b) == FileScanner.RegularPaths(a) + FileScanner.RegularPaths(b)
  {
    if b == [] {
      assert a + b == a;
    } else {
      assert (a + b)[..|a + b| - 1] == a + b[..|b| - 1];
      RegularPathsAppend(a, b[..|b| - 1]);
    }
  }

  lemma {:induction false} EntriesAgree(directory: Path, entries: seq<Entry>, calculateHash: bool, sha256: Bytes -> Digest)
    requires PlainDirectoryPath(directory) && EntriesWellNamed(entries)
    ensures FileScanner.RegularPaths(FileScanner.DirectoryEntries(directory, entries))
         == RecordPaths(LegacyScanner.EntriesRecords(directory, entries, calculateHash, sha256))
    decreases entries, 0
  {
    if entries != [] {
      var init := entries[..|entries| - 1];
      var last := entries[|entries| - 1];
      EntriesAgree(directory, init, calculateHash, sha256);
      EntryAgrees(directory, last, calculateHash, sha256);
      RegularPathsAppend(FileScanner.DirectoryEntries(directory, init), FileScanner.EntryWalk(directory, last));
      RecordPathsAppend(LegacyScanner.EntriesRecords(directory, init, calculateHash, sha256),
                        LegacyScanner.EntryRecords(directory, last, calculateHash, sha256));
    }
  }

  lemma {:induction false} EntryAgrees(directory: Path, entry: Entry, calculateHash: bool, sha256: Bytes -> Digest)
    requires PlainDirectoryPath(directory) && ValidName(entry.name) && WellNamed(entry.node)
    ensures FileScanner.RegularPaths(FileScanner.EntryWalk(directory, entry))
         == RecordPaths(LegacyScanner.EntryRecords(directory, entry, calculateHash, sha256))
    decreases entry, 1
  {
    if !IsDotEntry(entry.name) {
      var p := JoinPath(directory, entry.name);
      assert AppendPath(directory, entry.name) == p;
      var head := [FileScanner.WalkEntry(p, entry.node)];
      assert head[..0] == [];
      match entry.node
      case Directory(readable, children) =>
        if readable {
          assert p[|p| - 1] == entry.name[|entry.name| - 1];
          EntriesAgree(p, children, calculateHash, sha256);
          RegularPathsAppend(head, FileScanner.DirectoryEntries(p, children));
        } else {
          assert FileScanner.EntryWalk(directory, entry) == head;
        }
      case Regular(_, _) =>
        assert FileScanner.EntryWalk(directory, entry) == head;
      case Special =>
        assert FileScanner.EntryWalk(directory, entry) == head;
    }
  }

  /** For a root given without a trailing separator and a tree of ordinary
      names, the C++ scanner queues exactly the paths of the records the
      legacy scanner stores, in the same order. */
  lemma ScannersVisitSameFiles(path: Path, root: Node, calculateHash: bool, sha256: Bytes -> Digest)
    requires PlainDirectoryPath(path) && root.Directory? && WellNamed(root)
    ensures FileScanner.IteratorEntries(path, Some(root)).Some?
    ensures FileScanner.RegularPaths(FileScanner.IteratorEntries(path, Some(root)).value)
         == RecordPaths(LegacyScanner.LegacyRecords(path, root, calculateHash, sha256))
  {
    if root.readable {
      EntriesAgree(path, root.children, calculateHash, sha256);
    }
  }
}
