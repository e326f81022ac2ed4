/** The results folder as the merger sees it: names mapped to files (with the
    text a text-mode read returns) or to anything else. */
module Folder {
  import opened Strings

  /** Name prefixes of the per-repository reports, of the merger's temporary
      files, and the tag of the merged reports. */
  const SummaryPrefix := "Summary_Report"
  const Type1Prefix := "Postprocessing_Type_1"
  const Type2Prefix := "Postprocessing_Type_2"
  const TempTag := "Temp_File"
  const MergedTag := "All_Repositories"

  datatype Node = File(text: string) | NotAFile

  type Dir = map<string, Node>

  /** `s.startswith(prefix)` */
  predicate StartsWith(s: string, prefix: string)
  {
    |prefix| <= |s| && s[..|prefix|] == prefix
  }

  /** The names of the files whose names start with `prefix`, ascending. */
  function MatchingFiles(dir: Dir, prefix: string): (names: seq<string>)
    ensures StrictlySorted(names)
    ensures forall e :: e in names <==> e in dir && dir[e].File? && StartsWith(e, prefix)
  {
    SortSet(set e | e in dir && dir[e].File? && StartsWith(e, prefix))
  }

  /** Writing a file whose name does not start with `prefix` leaves the files
      matching it as they were. */
  lemma MatchingFilesFrame(dir: Dir, x: string, n: Node, prefix: string)
    requires !StartsWith(x, prefix)
    ensures MatchingFiles(dir[x := n], prefix) == MatchingFiles(dir, prefix)
  {
    var written := dir[x := n];
    assert (set e | e in written && written[e].File? && StartsWith(e, prefix))
        == (set e | e in dir && dir[e].File? && StartsWith(e, prefix));
  }
}
