/** The shared data model of the scanner: the FileInfo record, bytes, paths,
    the directory tree the walkers traverse and the SHA-256 oracle. */
module FileModel {
  import opened Wrappers

  newtype byte = x: int | 0 <= x < 256

  type Bytes = seq<byte>

  type Path = string

  /** The buffer size both hashing loops and compareFiles read with. */
  const ChunkSize: nat := 8192

  /** SHA-256 produces 32 bytes (section 6.2 of FIPS 180-4). */
  const DigestLength: nat := 32

  type Digest = d: Bytes | |d| == DigestLength witness seq(32, _ => 0 as byte)

  /** The digest library, which is not part of this model: whether a digest
      context can be created and initialised, and the SHA-256 function itself,
      left uninterpreted. */
  datatype DigestEngine = DigestEngine(available: bool, sha256: Bytes -> Digest)

  /** One scanned regular file. `hash` is the empty string when no digest was
      computed (or the digest computation failed). */
  datatype FileInfo = FileInfo(name: string, path: Path, size: nat, hash: string)

  /** A directory tree as the operating system presents it. `readable` on a
      directory says whether it can be opened for listing, on a regular file
      whether it can be opened for reading. `Special` stands for everything
      that is neither a directory nor a regular file (devices, sockets, pipes,
      entries `stat` cannot resolve). */
  datatype Node =
    | Regular(readable: bool, content: Bytes)
    | Directory(readable: bool, children: seq<Entry>)
    | Special

  /** A directory entry as `readdir` returns it; `children` may include the
      "." and ".." entries. */
  datatype Entry = Entry(name: string, node: Node)

  predicate IsDotEntry(name: string)
  {
    name == "." || name == ".."
  }

  /** `snprintf(buf, "%s/%s", dir, name)`: the legacy scanner always inserts a
      separator. */
  function JoinPath(dir: Path, name: string): (p: Path)
    ensures |p| == |dir| + 1 + |name|
    ensures p[..|dir|] == dir && p[|dir|] == '/' && p[|dir| + 1..] == name
  {
    dir + "/" + name
  }

  /** `fs::path(dir) / name`: a separator is inserted unless `dir` is empty or
      already ends in one. */
  function AppendPath(dir: Path, name: string): (p: Path)
    ensures dir != [] && dir[|dir| - 1] != '/' ==> p == JoinPath(dir, name)
    ensures dir == [] || dir[|dir| - 1] == '/' ==> p == dir + name
    ensures |p| >= |name| && p[|p| - |name|..] == name
  {
    if dir == [] || dir[|dir| - 1] == '/' then dir + name else dir + "/" + name
  }

  /** `fs::path(p).filename()`: the part after the last separator. */
  function FileName(p: Path): string
  {
    if p == [] then []
    else if p[|p| - 1] == '/' then []
    else FileName(p[..|p| - 1]) + [p[|p| - 1]]
  }

  /** The file name is the longest suffix without a separator. */
  lemma {:induction false} FileNameIsLastComponent(p: Path)
    ensures '/' !in FileName(p)
    ensures |FileName(p)| <= |p| && p[|p| - |FileName(p)|..] == FileName(p)
    ensures |FileName(p)| < |p| ==> p[|p| - |FileName(p)| - 1] == '/'
  {
    if p != [] && p[|p| - 1] != '/' {
      var init := p[..|p| - 1];
      FileNameIsLastComponent(init);
      assert p[|p| - |FileName(p)|..] == init[|init| - |FileName(init)|..] + [p[|p| - 1]];
    }
  }

  lemma {:induction false} FileNameOfJoin(dir: Path, name: string)
    requires '/' !in name
    ensures FileName(JoinPath(dir, name)) == name
    ensures FileName(AppendPath(dir, name)) == name
  {
    NameAfterSeparator(dir + "/", name);
    assert JoinPath(dir, name) == (dir + "/") + name;
    if dir == [] {
      assert AppendPath(dir, name) == name;
      FileNameWithoutSeparator(name);
    } else if dir[|dir| - 1] == '/' {
      assert AppendPath(dir, name) == dir + name;
      NameAfterSeparator(dir, name);
    }
  }

  lemma {:induction false} NameAfterSeparator(prefix: Path, name: string)
    requires '/' !in name
    requires prefix != [] && prefix[|prefix| - 1] == '/'
    ensures FileName(prefix + name) == name
  {
    if name == [] {
      assert prefix + name == prefix;
    } else {
      var last := name[|name| - 1];
      assert (prefix + name)[..|prefix + name| - 1] == prefix + name[..|name| - 1];
      NameAfterSeparator(prefix, name[..|name| - 1]);
      assert name[..|name| - 1] + [last] == name;
    }
  }

  lemma {:induction false} FileNameWithoutSeparator(name: string)
    requires '/' !in name
    ensures FileName(name) == name
  {
    if name != [] {
      FileNameWithoutSeparator(name[..|name| - 1]);
      assert name[..|name| - 1] + [name[|name| - 1]] == name;
    }
  }

  /** `fs::is_regular_file(path)` against the filesystem as it is when the
      path is processed. */
  predicate IsRegularFile(disk: map<Path, Node>, path: Path)
  {
    path in disk && disk[path].Regular?
  }

  /** Opening a path for reading: the content when it is a readable regular
      file, `None` when `ifstream`/`fopen` would fail. */
  function OpenFile(disk: map<Path, Node>, path: Path): (file: Option<Bytes>)
    ensures file.Some? <==> IsRegularFile(disk, path) && disk[path].readable
    ensures file.Some? ==> file.value == disk[path].content
  {
    if IsRegularFile(disk, path) && disk[path].readable then Some(disk[path].content) else None
  }
}
