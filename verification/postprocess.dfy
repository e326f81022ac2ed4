/** The post-processing driver: validates its inputs, then extracts and writes
    one report per repository folder of a test's results folder. */
module PostProcessing {
  import opened Wrappers
  import opened Strings
  import opened Decimal
  import opened Paths
  import Extraction
  import Writers
  import Tsv

  /** The two supported post-processing types. */
  datatype Strategy = CategoryCounts | CapabilitySets

  /** The type number given on the command line: 1 or 2. */
  function StrategyOf(n: int): (s: Option<Strategy>)
    ensures s.Some? <==> n == 1 || n == 2
    ensures s == Some(CategoryCounts) <==> n == 1
  {
    if n == 1 then Some(CategoryCounts) else if n == 2 then Some(CapabilitySets) else None
  }

  /** An entry of the results folder: a repository folder holding capa result
      files (in listing order), or anything else. */
  datatype Entry = RepoFolder(files: seq<Extraction.ResultFile>) | OtherEntry

  /** The repository folder names, in ascending order. */
  function RepoFolders(results: map<string, Entry>): (names: seq<string>)
    ensures StrictlySorted(names)
    ensures forall e :: e in names <==> e in results && results[e].RepoFolder?
  {
    SortSet(set e | e in results && results[e].RepoFolder?)
  }

  /** Names a folder listing can hold: non-empty and without `/`. */
  predicate ListingNames(results: map<string, Entry>)
  {
    forall e :: e in results ==> e != "" && '/' !in e
  }

  /** The folders are processed in ascending order of their full paths, which
      is the ascending order of their names. */
  lemma RepoPathsOrder(root: string, results: map<string, Entry>)
    requires ListingNames(results)
    ensures var names := RepoFolders(results);
      SortSet(set e | e in results && results[e].RepoFolder? :: PathJoin(root, e))
        == seq(|names|, i requires 0 <= i < |names| => PathJoin(root, names[i]))
  {
    var names := RepoFolders(results);
    var paths := seq(|names|, i requires 0 <= i < |names| => PathJoin(root, names[i]));
    var prefix := DirPrefix(root);
    forall i | 0 <= i < |names|
      ensures paths[i] == prefix + names[i]
    {
      JoinAsPrefix(root, names[i]);
    }
    forall i, j | 0 <= i < j < |paths|
      ensures Less(paths[i], paths[j])
    {
      LessPrefix(prefix, names[i], names[j]);
    }
    var s := set e | e in results && results[e].RepoFolder? :: PathJoin(root, e);
    forall p
      ensures p in paths <==> p in s
    {
      if p in s {
        var e :| e in results && results[e].RepoFolder? && PathJoin(root, e) == p;
        var i :| 0 <= i < |names| && names[i] == e;
        assert paths[i] == p;
      }
    }
    SortSetOf(s, paths);
  }

  /** `Postprocessing_Type_<n>_<folder>.txt`, the folder being the base name of
      the repository folder's path. */
  function ReportFileName(n: nat, repoPath: string): string
  {
    Join(["Postprocessing", "Type", NatToDecimal(n), BaseName(repoPath) + ".txt"], '_')
  }

  lemma ReportFileNameOf(n: nat, root: string, name: string)
    requires '/' !in name
    ensures ReportFileName(n, PathJoin(root, name)) == "Postprocessing_Type_" + NatToDecimal(n) + "_" + name + ".txt"
  {
    BaseNameOfJoin(root, name);
    JoinFour("Postprocessing", "Type", NatToDecimal(n), name + ".txt", '_');
  }

  /** The report of one repository: its files extracted from an empty
      accumulator, then written by the matching writer. */
  function RepositoryReport(s: Strategy, files: seq<Extraction.ResultFile>): string
  {
    match s
    case CategoryCounts => Writers.CountsReport(Extraction.CategoryCounts(files))
    case CapabilitySets => Writers.IncidenceReport(Extraction.CapabilityLists(files))
  }

  /** A repository none of whose files could be used still gets a report:
      empty for type 1, the bare `Sample` header for type 2. */
  lemma FailedRepositoryReport(files: seq<Extraction.ResultFile>)
    requires forall i :: 0 <= i < |files| ==> Extraction.Namespaces(Extraction.FileRules(files[i])) == []
    ensures RepositoryReport(CategoryCounts, files) == ""
    ensures RepositoryReport(CapabilitySets, files) == "Sample\n"
  {
    Extraction.NothingExtracted(files);
    var none: map<string, seq<string>> := map[];
    assert Writers.Capabilities(none) == {};
    assert |Writers.Columns(none)| == 0 && |SortedKeys(none)| == 0;
    var t := Writers.IncidenceTable(none);
    assert |t| == 1 && t[0] == ["Sample"];
    var ls := seq(|t|, i requires 0 <= i < |t| => Join(t[i], '\t'));
    assert ls == [Join(["Sample"], '\t')] && Join(["Sample"], '\t') == "Sample";
    assert Tsv.Unlines(ls) == "Sample" + "\n" + Tsv.Unlines([]);
  }

  datatype Report = Report(name: string, text: string)

  /** The whole step: reject an unsupported type, a missing results folder or
      one without repository folders before anything is written; otherwise
      one report per repository folder, in ascending order. */
  function Execute(n: int, root: string, results: Option<map<string, Entry>>): (r: Result<seq<Report>>)
    ensures r.Err? <==> StrategyOf(n).None? || results.None? || RepoFolders(results.value) == []
    ensures r.Ok? ==> |r.value| == |RepoFolders(results.value)|
  {
    if StrategyOf(n).None? then Err("AssertionError: The specified postprocessing type is not supported")
    else if results.None? then Err("AssertionError: The specified result folder does not exist")
    else
      var names := RepoFolders(results.value);
      if names == [] then Err("AssertionError: The specified result folder does not contain repository-specific folders")
      else
        Ok(seq(|names|, i requires 0 <= i < |names| =>
          Report(ReportFileName(n, PathJoin(root, names[i])),
                 RepositoryReport(StrategyOf(n).value, results.value[names[i]].files))))
  }

  /** Each repository folder, in ascending order, gets the report
      `Postprocessing_Type_<n>_<folder>.txt` holding what its own files give. */
  lemma ExecuteReports(n: int, root: string, results: map<string, Entry>, i: int)
    requires ListingNames(results)
    requires Execute(n, root, Some(results)).Ok?
    requires 0 <= i < |RepoFolders(results)|
    ensures var name := RepoFolders(results)[i];
      var report := Execute(n, root, Some(results)).value[i];
      && report.name == "Postprocessing_Type_" + NatToDecimal(n) + "_" + name + ".txt"
      && report.text == RepositoryReport(StrategyOf(n).value, results[name].files)
  {
    ReportFileNameOf(n, root, RepoFolders(results)[i]);
  }

  /** Reports get distinct names, so none overwrites another. */
  lemma ExecuteDistinctNames(n: int, root: string, results: map<string, Entry>)
    requires ListingNames(results)
    requires Execute(n, root, Some(results)).Ok?
    ensures var reports := Execute(n, root, Some(results)).value;
      forall i, j :: 0 <= i < j < |reports| ==> reports[i].name != reports[j].name
  {
    var reports := Execute(n, root, Some(results)).value;
    var names := RepoFolders(results);
    forall i, j | 0 <= i < j < |reports|
      ensures reports[i].name != reports[j].name
    {
      ExecuteReports(n, root, results, i);
      ExecuteReports(n, root, results, j);
      var head := "Postprocessing_Type_" + NatToDecimal(n) + "_";
      assert Less(names[i], names[j]);
      LessIrreflexive(names[i]);
      if reports[i].name == reports[j].name {
        CancelEnds(head, names[i], names[j], ".txt");
      }
    }
  }
}
