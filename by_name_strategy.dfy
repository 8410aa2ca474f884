/** The by-name strategy: files that share a file name are duplicates. */
module ByNameStrategy {
  import opened FileModel
  import opened DuplicateDetection

  /** `ByNameStrategy::findDuplicates`: the first loop files every record under
      its name with `push_back`; the second visits the map in its unspecified
      order and reports every group with more than one member. The reported
      groups are returned instead of printed. */
  method FindDuplicates(files: seq<FileInfo>) returns (reported: Groups)
    ensures reported == DuplicateDetection.FindDuplicates(ByName, files)
  {
    var nameMap: Groups := map[];
    for i := 0 to |files|
      invariant nameMap == GroupMap(files[..i], ByName)
    {
      var file := files[i];
      var group := if file.name in nameMap then nameMap[file.name] else [];
      nameMap := nameMap[file.name := group + [file]];
      assert files[..i + 1][..i] == files[..i];
    }
    assert files[..|files|] == files;
    reported := map[];
    var unvisited := nameMap.Keys;
    while unvisited != {}
      invariant unvisited <= nameMap.Keys
      invariant reported == ReportedAmong(nameMap, nameMap.Keys - unvisited)
      decreases unvisited
    {
      var name :| name in unvisited;
      ReportedAmongStep(nameMap, nameMap.Keys - unvisited, name);
      assert nameMap.Keys - (unvisited - {name}) == (nameMap.Keys - unvisited) + {name};
      if |nameMap[name]| > 1 {
        reported := reported[name := nameMap[name]];
      }
      unvisited := unvisited - {name};
    }
    ReportedAmongAll(nameMap);
    assert nameMap.Keys - unvisited == nameMap.Keys;
  }
}
