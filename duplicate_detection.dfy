/** The classification both strategies share: records are partitioned by a
    key into a map of groups, and the groups with more than one member are the
    reported duplicates. */
module DuplicateDetection {
  import opened FileModel

  /** The strategy interface, one variant per implementation. */
  datatype Strategy = ByName | ByContent

  /** The grouping key: the file name, or the hash string. */
  function KeyOf(s: Strategy, f: FileInfo): string
  {
    match s
    case ByName => f.name
    case ByContent => f.hash
  }

  type Groups = map<string, seq<FileInfo>>

  /** The records whose key is `k`, in input order. */
  function Members(files: seq<FileInfo>, s: Strategy, k: string): (g: seq<FileInfo>)
    ensures |g| <= |files|
    ensures forall f :: f in g ==> f in files && KeyOf(s, f) == k
  {
    if files == [] then []
    else
      var last := files[|files| - 1];
      Members(files[..|files| - 1], s, k) + (if KeyOf(s, last) == k then [last] else [])
  }

  /** The map the grouping loop fills, one `push_back` per record. */
  function GroupMap(files: seq<FileInfo>, s: Strategy): Groups
  {
    if files == [] then map[]
    else
      var m := GroupMap(files[..|files| - 1], s);
      var f := files[|files| - 1];
      var k := KeyOf(s, f);
      m[k := (if k in m then m[k] else []) + [f]]
  }

  /** The groups that are reported: those with more than one member. */
  function Reported(groups: Groups): (r: Groups)
    ensures forall k :: k in r <==> k in groups && |groups[k]| > 1
    ensures forall k :: k in r ==> r[k] == groups[k]
  {
    map k | k in groups && |groups[k]| > 1 :: groups[k]
  }

  /** The reported groups among the keys in `visited`: what the reporting
      loop has produced once it has looked at those keys. */
  function ReportedAmong(groups: Groups, visited: set<string>): Groups
  {
    map k | k in visited && k in groups && |groups[k]| > 1 :: groups[k]
  }

  /** Looking at one more key adds its group when it has several members. */
  lemma ReportedAmongStep(groups: Groups, visited: set<string>, k: string)
    requires k in groups
    ensures ReportedAmong(groups, visited + {k}) ==
      if |groups[k]| > 1 then ReportedAmong(groups, visited)[k := groups[k]] else ReportedAmong(groups, visited)
  {
  }

  /** Once every key is looked at, the loop has produced `Reported`. */
  lemma ReportedAmongAll(groups: Groups)
    ensures ReportedAmong(groups, groups.Keys) == Reported(groups)
  {
  }

  /** What `findDuplicates` reports, as a value instead of console output. */
  function FindDuplicates(s: Strategy, files: seq<FileInfo>): Groups
  {
    Reported(GroupMap(files, s))
  }

  ghost function KeySet(files: seq<FileInfo>, s: Strategy): set<string>
  {
    set i | 0 <= i < |files| :: KeyOf(s, files[i])
  }

  /** The map has one group per key that occurs, and that group holds exactly
      the records with that key, in input order. */
  lemma {:induction false} GroupMapIsPartition(files: seq<FileInfo>, s: Strategy)
    ensures GroupMap(files, s).Keys == KeySet(files, s)
    ensures forall k :: k in GroupMap(files, s) ==> GroupMap(files, s)[k] == Members(files, s, k)
  {
    if files != [] {
      var init := files[..|files| - 1];
      var f := files[|files| - 1];
      GroupMapIsPartition(init, s);
      forall k | k !in GroupMap(init, s)
        ensures Members(init, s, k) == []
      {
        MembersEmptyWithoutKey(init, s, k);
      }
      KeySetStep(files, s);
    }
  }

  /** The keys of a sequence are those of all but its last record, plus the
      last record's key. */
  lemma KeySetStep(files: seq<FileInfo>, s: Strategy)
    requires files != []
    ensures KeySet(files, s) == KeySet(files[..|files| - 1], s) + {KeyOf(s, files[|files| - 1])}
  {
    var init := files[..|files| - 1];
    forall k | k in KeySet(files, s) ensures k in KeySet(init, s) + {KeyOf(s, files[|files| - 1])} {
      var i :| 0 <= i < |files| && KeyOf(s, files[i]) == k;
      if i < |init| { assert init[i] == files[i]; }
    }
    forall k | k in KeySet(init, s) ensures k in KeySet(files, s) {
      var i :| 0 <= i < |init| && KeyOf(s, init[i]) == k;
      assert files[i] == init[i];
    }
  }

  lemma {:induction false} MembersEmptyWithoutKey(files: seq<FileInfo>, s: Strategy, k: string)
    requires k !in KeySet(files, s)
    ensures Members(files, s, k) == []
  {
    if files != [] {
      var init := files[..|files| - 1];
      KeySetStep(files, s);
      MembersEmptyWithoutKey(init, s, k);
    }
  }

  /** Every record lands in exactly one group: the one of its own key. */
  lemma EachRecordInExactlyOneGroup(files: seq<FileInfo>, s: Strategy, i: nat)
    requires i < |files|
    ensures KeyOf(s, files[i]) in GroupMap(files, s)
    ensures files[i] in GroupMap(files, s)[KeyOf(s, files[i])]
    ensures forall k :: k in GroupMap(files, s) && files[i] in GroupMap(files, s)[k] ==> k == KeyOf(s, files[i])
  {
    GroupMapIsPartition(files, s);
    assert KeyOf(s, files[i]) in KeySet(files, s);
    MemberAtIndex(files, s, i);
  }

  lemma {:induction false} MemberAtIndex(files: seq<FileInfo>, s: Strategy, i: nat)
    requires i < |files|
    ensures files[i] in Members(files, s, KeyOf(s, files[i]))
  {
    if i < |files| - 1 {
      MemberAtIndex(files[..|files| - 1], s, i);
    }
  }

  /** A group lists its records in input order: the group built from a prefix
      of the input is a prefix of the final group, and each further matching
      record is appended at its end. */
  lemma {:induction false} GroupKeepsInputOrder(files: seq<FileInfo>, s: Strategy, k: string, n: nat)
    requires n < |files|
    ensures Members(files[..n + 1], s, k)
         == Members(files[..n], s, k) + (if KeyOf(s, files[n]) == k then [files[n]] else [])
    ensures Members(files[..n], s, k) <= Members(files, s, k)
  {
    var prefix := files[..n + 1];
    assert prefix[..|prefix| - 1] == files[..n] && prefix[|prefix| - 1] == files[n];
    MembersOfPrefix(files, s, k, n);
  }

  lemma {:induction false} MembersOfPrefix(files: seq<FileInfo>, s: Strategy, k: string, n: nat)
    requires n <= |files|
    ensures Members(files[..n], s, k) <= Members(files, s, k)
    decreases |files|
  {
    if n == |files| {
      assert files[..n] == files;
    } else {
      var init := files[..|files| - 1];
      MembersOfPrefix(init, s, k, n);
      assert init[..n] == files[..n];
      var tail := if KeyOf(s, files[|files| - 1]) == k then [files[|files| - 1]] else [];
      assert Members(files, s, k) == Members(init, s, k) + tail;
    }
  }

  /** The sum of the sizes of the groups named in `keys`. */
  function SumSizes(groups: Groups, keys: seq<string>): nat
  {
    if keys == [] then 0
    else (if keys[0] in groups then |groups[keys[0]]| else 0) + SumSizes(groups, keys[1..])
  }

  /** The records whose key is in `keys`, in input order. */
  function WithKeyIn(files: seq<FileInfo>, s: Strategy, keys: set<string>): seq<FileInfo>
  {
    if files == [] then []
    else
      var last := files[|files| - 1];
      WithKeyIn(files[..|files| - 1], s, keys) + (if KeyOf(s, last) in keys then [last] else [])
  }

  lemma {:induction false} SplitWithKeyIn(files: seq<FileInfo>, s: Strategy, k: string, keys: set<string>)
    requires k !in keys
    ensures |WithKeyIn(files, s, {k} + keys)| == |Members(files, s, k)| + |WithKeyIn(files, s, keys)|
  {
    if files != [] {
      SplitWithKeyIn(files[..|files| - 1], s, k, keys);
    }
  }

  lemma {:induction false} WithAllKeys(files: seq<FileInfo>, s: Strategy, keys: set<string>)
    requires KeySet(files, s) <= keys
    ensures WithKeyIn(files, s, keys) == files
  {
    if files != [] {
      var init := files[..|files| - 1];
      KeySetStep(files, s);
      WithAllKeys(init, s, keys);
    }
  }

  lemma {:induction false} SumOfMembers(files: seq<FileInfo>, s: Strategy, keys: seq<string>)
    requires forall a, b :: 0 <= a < b < |keys| ==> keys[a] != keys[b]
    requires forall k :: k in keys ==> k in GroupMap(files, s)
    ensures SumSizes(GroupMap(files, s), keys) == |WithKeyIn(files, s, set k | k in keys)|
  {
    GroupMapIsPartition(files, s);
    if keys == [] {
      assert (set k | k in keys) == {};
      WithNoKeys(files, s);
    } else {
      var rest := keys[1..];
      SumOfMembers(files, s, rest);
      assert keys[0] !in rest;
      assert (set k | k in keys) == {keys[0]} + (set k | k in rest);
      SplitWithKeyIn(files, s, keys[0], set k | k in rest);
    }
  }

  lemma {:induction false} WithNoKeys(files: seq<FileInfo>, s: Strategy)
    ensures WithKeyIn(files, s, {}) == []
  {
    if files != [] {
      WithNoKeys(files[..|files| - 1], s);
    }
  }

  /** The sizes of all the groups add up to the number of input records. */
  lemma GroupSizesSum(files: seq<FileInfo>, s: Strategy, keys: seq<string>)
    requires forall a, b :: 0 <= a < b < |keys| ==> keys[a] != keys[b]
    requires (set k | k in keys) == GroupMap(files, s).Keys
    ensures SumSizes(GroupMap(files, s), keys) == |files|
  {
    GroupMapIsPartition(files, s);
    SumOfMembers(files, s, keys);
    WithAllKeys(files, s, set k | k in keys);
  }

  lemma {:induction false} MembersAtLeastOne(files: seq<FileInfo>, s: Strategy, i: nat)
    requires i < |files|
    ensures |Members(files, s, KeyOf(s, files[i]))| >= 1
  {
    MemberAtIndex(files, s, i);
  }

  lemma {:induction false} MembersAtLeastTwo(files: seq<FileInfo>, s: Strategy, k: string, i: nat, j: nat)
    requires i < j < |files| && KeyOf(s, files[i]) == k && KeyOf(s, files[j]) == k
    ensures |Members(files, s, k)| >= 2
  {
    var init := files[..|files| - 1];
    if j == |files| - 1 {
      assert init[i] == files[i];
      MembersAtLeastOne(init, s, i);
    } else {
      assert init[i] == files[i] && init[j] == files[j];
      MembersAtLeastTwo(init, s, k, i, j);
    }
  }

  lemma {:induction false} TwoMembersHaveIndices(files: seq<FileInfo>, s: Strategy, k: string)
    requires |Members(files, s, k)| >= 2
    ensures exists i, j :: 0 <= i < j < |files| && KeyOf(s, files[i]) == k && KeyOf(s, files[j]) == k
  {
    var init := files[..|files| - 1];
    var last := files[|files| - 1];
    if |Members(init, s, k)| >= 2 {
      TwoMembersHaveIndices(init, s, k);
      var i, j :| 0 <= i < j < |init| && KeyOf(s, init[i]) == k && KeyOf(s, init[j]) == k;
      assert files[i] == init[i] && files[j] == init[j];
    } else {
      assert KeyOf(s, last) == k && |Members(init, s, k)| == 1;
      var f := Members(init, s, k)[0];
      assert f in Members(init, s, k);
      var i :| 0 <= i < |init| && init[i] == f;
      assert files[i] == f && files[|files| - 1] == last;
    }
  }

  /** A key is reported exactly when at least two records carry it. */
  lemma ReportedIffShared(files: seq<FileInfo>, s: Strategy, k: string)
    ensures k in FindDuplicates(s, files)
        <==> exists i, j :: 0 <= i < j < |files| && KeyOf(s, files[i]) == k && KeyOf(s, files[j]) == k
  {
    GroupMapIsPartition(files, s);
    if exists i, j :: 0 <= i < j < |files| && KeyOf(s, files[i]) == k && KeyOf(s, files[j]) == k {
      var i, j :| 0 <= i < j < |files| && KeyOf(s, files[i]) == k && KeyOf(s, files[j]) == k;
      assert k in KeySet(files, s);
      MembersAtLeastTwo(files, s, k, i, j);
    }
    if k in FindDuplicates(s, files) {
      TwoMembersHaveIndices(files, s, k);
    }
  }

  /** Every reported group has more than one member, all of them carrying the
      group's key. */
  lemma ReportedGroupsShareKey(files: seq<FileInfo>, s: Strategy, k: string)
    requires k in FindDuplicates(s, files)
    ensures |FindDuplicates(s, files)[k]| > 1
    ensures forall f :: f in FindDuplicates(s, files)[k] ==> f in files && KeyOf(s, f) == k
  {
    GroupMapIsPartition(files, s);
  }

  /** A record whose key no other record shares is never reported. */
  lemma UniqueKeyNeverReported(files: seq<FileInfo>, s: Strategy, i: nat)
    requires i < |files|
    requires forall j :: 0 <= j < |files| && j != i ==> KeyOf(s, files[j]) != KeyOf(s, files[i])
    ensures KeyOf(s, files[i]) !in FindDuplicates(s, files)
  {
    ReportedIffShared(files, s, KeyOf(s, files[i]));
  }

  /** An empty input, or one whose keys are pairwise distinct, reports nothing. */
  lemma DistinctKeysReportNothing(files: seq<FileInfo>, s: Strategy)
    requires forall i, j :: 0 <= i < j < |files| ==> KeyOf(s, files[i]) != KeyOf(s, files[j])
    ensures FindDuplicates(s, files) == map[]
  {
    forall k | k in FindDuplicates(s, files)
      ensures false
    {
      ReportedIffShared(files, s, k);
    }
  }

  /** Records without a hash all share the key "": two or more of them are
      reported together as one duplicate group, whatever their contents. */
  lemma EmptyHashesShareOneGroup(files: seq<FileInfo>, i: nat, j: nat)
    requires i < j < |files| && files[i].hash == "" && files[j].hash == ""
    ensures "" in FindDuplicates(ByContent, files)
    ensures forall f :: f in files && f.hash == "" ==> f in FindDuplicates(ByContent, files)[""]
  {
    ReportedIffShared(files, ByContent, "");
    GroupMapIsPartition(files, ByContent);
    forall f | f in files && f.hash == ""
      ensures f in FindDuplicates(ByContent, files)[""]
    {
      var n :| 0 <= n < |files| && files[n] == f;
      MemberAtIndex(files, ByContent, n);
    }
  }
}
