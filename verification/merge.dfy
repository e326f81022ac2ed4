/** The cross-repository merger: for each kind of report, the per-repository
    files are read back into maps and pivoted into one table with a column
    per file and a row per description. */
module Merge {
  import opened Wrappers
  import opened Strings
  import opened Tsv
  import opened Folder
  import Launcher
  import Collapse

  /** The report kinds, in the order they are merged. */
  const ReportPrefixes: seq<string> := [SummaryPrefix, Type1Prefix, Type2Prefix]
  const DescriptionHeader := "Description"

  /** A file read with `csv.reader(..., delimiter='\t')` and passed to `dict`. */
  function ReadDict(text: string): Result<map<string, string>>
  {
    RowsToDict(ReadRows(text))
  }

  /** File name -> its map, for the given files; the first file (in order)
      that does not read as pairs makes the whole step fail. */
  function DictsOf(dir: Dir, names: seq<string>): (r: Result<map<string, map<string, string>>>)
    requires forall i :: 0 <= i < |names| ==> names[i] in dir && dir[names[i]].File?
    ensures r.Ok? <==> forall i :: 0 <= i < |names| ==> ReadDict(dir[names[i]].text).Ok?
    ensures r.Ok? ==> forall e :: e in r.value <==> e in names
    ensures r.Ok? ==> forall e :: e in r.value ==> Ok(r.value[e]) == ReadDict(dir[e].text)
    decreases |names|
  {
    if |names| == 0 then Ok(map[])
    else
      var first := ReadDict(dir[names[0]].text);
      var rest := DictsOf(dir, names[1..]);
      assert forall i :: 1 <= i < |names| ==> names[1..][i - 1] == names[i];
      if first.Err? then Err(first.error)
      else if rest.Err? then Err(rest.error)
      else
        ConsKeys(names, first.value, rest.value);
        Ok(rest.value[names[0] := first.value])
  }

  /** A map over the later names, with the first added, is a map over all of them. */
  lemma ConsKeys<V>(names: seq<string>, first: V, rest: map<string, V>)
    requires |names| > 0
    requires forall e :: e in rest <==> e in names[1..]
    ensures forall e :: e in rest[names[0] := first] <==> e in names
  {
    assert names == [names[0]] + names[1..];
  }

  /** The data of one report kind: every file of the results folder whose name
      starts with the prefix, read as pairs. */
  function DataDictionary(dir: Dir, prefix: string): (r: Result<map<string, map<string, string>>>)
    ensures r.Ok? <==> forall e :: e in dir && dir[e].File? && StartsWith(e, prefix) ==> ReadDict(dir[e].text).Ok?
    ensures r.Ok? ==> forall e :: e in r.value <==> e in dir && dir[e].File? && StartsWith(e, prefix)
    ensures r.Ok? ==> forall e :: e in r.value ==> Ok(r.value[e]) == ReadDict(dir[e].text)
  {
    var names := MatchingFiles(dir, prefix);
    assert forall e :: e in dir && dir[e].File? && StartsWith(e, prefix) ==> exists i :: 0 <= i < |names| && names[i] == e;
    DictsOf(dir, names)
  }

  /** Every description found in any of the files. */
  function Labels(data: map<string, map<string, string>>): set<string>
  {
    set f, k | f in data && k in data[f] :: k
  }

  /** Row order: for summary reports `Successful` first, `Other` last and the
      rest ascending; for the others all ascending. */
  function Descriptions(prefix: string, data: map<string, map<string, string>>): (ds: seq<string>)
  {
    if prefix == SummaryPrefix then Launcher.PinnedOrder(Labels(data)) else SortSet(Labels(data))
  }

  /** Every description once; for summary reports the two pinned labels are
      there even when no file has them, and nothing else is added. */
  lemma DescriptionsSpec(prefix: string, data: map<string, map<string, string>>)
    ensures var ds := Descriptions(prefix, data);
      && (forall i, j :: 0 <= i < j < |ds| ==> ds[i] != ds[j])
      && (prefix != SummaryPrefix ==>
            StrictlySorted(ds) && forall k :: k in ds <==> exists f :: f in data && k in data[f])
      && (prefix == SummaryPrefix ==>
            |ds| >= 2 && ds[0] == Launcher.Successful && ds[|ds| - 1] == Launcher.Other
            && StrictlySorted(ds[1..|ds| - 1])
            && forall k :: k in ds <==>
                 (exists f :: f in data && k in data[f]) || k == Launcher.Successful || k == Launcher.Other)
  {
    var ds := Descriptions(prefix, data);
    if prefix != SummaryPrefix {
      forall i, j | 0 <= i < j < |ds|
        ensures ds[i] != ds[j]
      {
        assert Less(ds[i], ds[j]);
        LessIrreflexive(ds[i]);
      }
    }
  }

  /** The value a file has for a description, `0` when it has none. */
  function Cell(d: map<string, string>, description: string): string
  {
    if description in d then d[description] else "0"
  }

  /** One row of the merged table. */
  function MergedRow(data: map<string, map<string, string>>, files: seq<string>, description: string): (row: Row)
    requires forall j :: 0 <= j < |files| ==> files[j] in data
    ensures |row| == |files| + 1
  {
    [description] + seq(|files|, j requires 0 <= j < |files| => Cell(data[files[j]], description))
  }

  /** The merged table: a `Description` header followed by the file names in
      ascending order, then one row per description. */
  function MergedTable(prefix: string, data: map<string, map<string, string>>): (t: seq<Row>)
    ensures |t| == |Descriptions(prefix, data)| + 1
    ensures t[0] == [DescriptionHeader] + SortedKeys(data)
  {
    var files := SortedKeys(data);
    var ds := Descriptions(prefix, data);
    [[DescriptionHeader] + files] + seq(|ds|, i requires 0 <= i < |ds| => MergedRow(data, files, ds[i]))
  }

  lemma MergedRows(prefix: string, data: map<string, map<string, string>>, i: int)
    requires 1 <= i <= |Descriptions(prefix, data)|
    ensures MergedTable(prefix, data)[i] == MergedRow(data, SortedKeys(data), Descriptions(prefix, data)[i - 1])
  {
  }

  /** Every row is as wide as the header: one column per file and one for the description. */
  lemma MergedTableRectangular(prefix: string, data: map<string, map<string, string>>)
    ensures var t := MergedTable(prefix, data); forall i :: 0 <= i < |t| ==> |t[i]| == |data| + 1
  {
    var t := MergedTable(prefix, data);
    forall i | 1 <= i < |t|
      ensures |t[i]| == |data| + 1
    {
      MergedRows(prefix, data, i);
    }
  }

  /** The header names every file once, ascending; row `i` is the `i`-th
      description. */
  lemma MergedTableHeader(prefix: string, data: map<string, map<string, string>>)
    ensures var t := MergedTable(prefix, data);
      && t[0][0] == DescriptionHeader
      && StrictlySorted(t[0][1..]) && (forall f :: f in t[0][1..] <==> f in data)
      && (forall i :: 1 <= i < |t| ==> t[i][0] == Descriptions(prefix, data)[i - 1])
  {
    var t := MergedTable(prefix, data);
    assert t[0][1..] == SortedKeys(data);
    forall i | 1 <= i < |t|
      ensures t[i][0] == Descriptions(prefix, data)[i - 1]
    {
      MergedRows(prefix, data, i);
    }
  }

  /** Each cell holds its column's file's value for its row's description, or
      `0` when that file lacks the description. */
  lemma MergedCell(prefix: string, data: map<string, map<string, string>>, i: int, j: int)
    requires 1 <= i <= |Descriptions(prefix, data)| && 1 <= j <= |data|
    ensures var t := MergedTable(prefix, data);
      var description := Descriptions(prefix, data)[i - 1];
      && t[0][j] in data
      && t[i][j] == (if description in data[t[0][j]] then data[t[0][j]][description] else "0")
  {
    var t := MergedTable(prefix, data);
    var files := SortedKeys(data);
    var description := Descriptions(prefix, data)[i - 1];
    assert t[0][j] == files[j - 1] && files[j - 1] in data by {
      ConsIndex(DescriptionHeader, files, j);
    }
    assert t[i][j] == Cell(data[files[j - 1]], description) by {
      MergedRows(prefix, data, i);
      MergedRowCell(data, files, description, j);
    }
  }

  lemma MergedRowCell(data: map<string, map<string, string>>, files: seq<string>, description: string, j: int)
    requires forall k :: 0 <= k < |files| ==> files[k] in data
    requires 1 <= j <= |files|
    ensures MergedRow(data, files, description)[j] == Cell(data[files[j - 1]], description)
  {
    ConsIndex(description, seq(|files|, k requires 0 <= k < |files| => Cell(data[files[k]], description)), j);
  }

  /** With no file of a kind, the table has no file column; for summary
      reports it still has the rows `Successful` and `Other`. */
  lemma EmptyMerge(prefix: string)
    ensures MergedTable(prefix, map[]) ==
      if prefix == SummaryPrefix then [[DescriptionHeader], [Launcher.Successful], [Launcher.Other]]
      else [[DescriptionHeader]]
  {
    var none: map<string, map<string, string>> := map[];
    var nothing: set<string> := {};
    assert Labels(none) == nothing;
    assert |SortedKeys(none)| == 0;
    var t := MergedTable(prefix, none);
    var ds := Descriptions(prefix, none);
    if prefix == SummaryPrefix {
      assert nothing - {Launcher.Successful, Launcher.Other} == nothing;
      assert |SortSet(nothing)| == 0;
      assert ds == [Launcher.Successful, Launcher.Other];
      MergedRows(prefix, none, 1);
      MergedRows(prefix, none, 2);
      assert t[1] == [Launcher.Successful] && t[2] == [Launcher.Other];
      assert t[0] == [DescriptionHeader] && |t| == 3;
      assert t == [[DescriptionHeader], [Launcher.Successful], [Launcher.Other]];
    } else {
      assert |ds| == 0;
      assert t[0] == [DescriptionHeader] && |t| == 1;
    }
  }

  lemma PinnedAround(middle: seq<string>)
    requires middle == ["Foo", "Timed Out"]
    ensures [Launcher.Successful] + middle + [Launcher.Other] == ["Successful", "Foo", "Timed Out", "Other"]
  {
    var r := [Launcher.Successful] + middle + [Launcher.Other];
    assert |r| == 4 && r[0] == "Successful" && r[1] == "Foo" && r[2] == "Timed Out" && r[3] == "Other";
  }

  /** The summary rows `Successful`, then the other labels ascending, then `Other`. */
  lemma SummaryDescriptionsExample(data: map<string, map<string, string>>)
    requires Labels(data) == {"Successful", "Timed Out", "Other", "Foo"}
    ensures Descriptions(SummaryPrefix, data) == ["Successful", "Foo", "Timed Out", "Other"]
  {
    var labels := Labels(data);
    var middle := labels - {Launcher.Successful, Launcher.Other};
    assert middle == {"Foo", "Timed Out"} by {
      forall x
        ensures x in middle <==> x == "Foo" || x == "Timed Out"
      {
      }
    }
    assert Less("Foo", "Timed Out");
    SortSetOf(middle, ["Foo", "Timed Out"]);
    var sorted := SortSet(middle);
    assert sorted == ["Foo", "Timed Out"];
    assert Launcher.PinnedOrder(labels) == [Launcher.Successful] + sorted + [Launcher.Other];
    PinnedAround(sorted);
    assert Descriptions(SummaryPrefix, data) == Launcher.PinnedOrder(labels);
  }

  /** `<prefix>_All_Repositories.csv` */
  function MergedName(prefix: string): (name: string)
    ensures name == prefix + "_" + MergedTag + ".csv"
  {
    JoinTwo(prefix, MergedTag + ".csv", '_');
    Join([prefix, MergedTag + ".csv"], '_')
  }

  /** The data of one report kind. Type-2 reports are first collapsed into
      temporary files, and the data is read from those. */
  function KindData(dir: Dir, prefix: string): (r: Result<map<string, map<string, string>>>)
    ensures prefix != Type2Prefix ==> r == DataDictionary(dir, prefix)
    ensures prefix == Type2Prefix ==>
      (r.Ok? ==> Collapse.TempFolder(dir).Ok?)
      && (Collapse.TempFolder(dir).Ok? ==> r == DataDictionary(Collapse.TempFolder(dir).value, TempTag))
  {
    if prefix == Type2Prefix then
      match Collapse.TempFolder(dir)
      case Err(e) => Err(e)
      case Ok(withTemps) => DataDictionary(withTemps, TempTag)
    else DataDictionary(dir, prefix)
  }

  /** One report kind merged: its data pivoted into a table. */
  function MergeKind(dir: Dir, prefix: string): (r: Result<seq<Row>>)
    ensures r.Ok? <==> KindData(dir, prefix).Ok?
    ensures r.Ok? ==> r.value == MergedTable(prefix, KindData(dir, prefix).value)
  {
    match KindData(dir, prefix)
    case Err(e) => Err(e)
    case Ok(data) => Ok(MergedTable(prefix, data))
  }

  /** What a merge leaves behind: the reports written, by file name, and the
      failure that stopped it, if any. */
  datatype Merged = Merged(reports: seq<(string, seq<Row>)>, failure: Option<string>)

  /** The kinds' outcomes taken in turn; the first failure ends the merge, so
      the kinds after it get no report. */
  function StopAtFailure(steps: seq<(string, Result<seq<Row>>)>): (m: Merged)
    ensures |m.reports| <= |steps|
    ensures forall i :: 0 <= i < |m.reports| ==> steps[i].1.Ok? && m.reports[i] == (steps[i].0, steps[i].1.value)
    ensures m.failure.None? <==> |m.reports| == |steps|
    ensures m.failure.Some? ==> steps[|m.reports|].1 == Err(m.failure.value)
    decreases |steps|
  {
    if |steps| == 0 then Merged([], None)
    else
      match steps[0].1
      case Err(e) => Merged([], Some(e))
      case Ok(table) =>
        var rest := StopAtFailure(steps[1..]);
        assert forall i :: 1 <= i < |steps| ==> steps[i] == steps[1..][i - 1];
        Merged([(steps[0].0, table)] + rest.reports, rest.failure)
  }

  /** Each kind, its merged report's name and its table (or failure). */
  function Steps(dir: Dir): (steps: seq<(string, Result<seq<Row>>)>)
    ensures |steps| == |ReportPrefixes|
    ensures forall i :: 0 <= i < |steps| ==> steps[i] == (MergedName(ReportPrefixes[i]), MergeKind(dir, ReportPrefixes[i]))
  {
    seq(|ReportPrefixes|, i requires 0 <= i < |ReportPrefixes| => (MergedName(ReportPrefixes[i]), MergeKind(dir, ReportPrefixes[i])))
  }

  /** `ComparePostProcessingReportsCls`: the results folder must exist; then
      summary, type-1 and type-2 reports are merged, in that order. */
  function CompareReports(dir: Option<Dir>): (m: Merged)
    ensures dir.None? ==> m == Merged([], Some("AssertionError: The specified result folder does not exist"))
    ensures dir.Some? ==> m == StopAtFailure(Steps(dir.value))
  {
    match dir
    case None => Merged([], Some("AssertionError: The specified result folder does not exist"))
    case Some(d) => StopAtFailure(Steps(d))
  }

  /** The folder a kind's data is read from, and the prefix of its files:
      the temporary files for type-2 reports, the reports themselves
      otherwise. */
  function Source(dir: Dir, prefix: string): (src: Result<(Dir, string)>)
    ensures src.Ok? <==> prefix != Type2Prefix || Collapse.TempFolder(dir).Ok?
  {
    if prefix != Type2Prefix then Ok((dir, prefix))
    else
      match Collapse.TempFolder(dir)
      case Err(e) => Err(e)
      case Ok(withTemps) => Ok((withTemps, TempTag))
  }

  /** A kind's data is its source files read as pairs. */
  lemma KindDataOfSource(dir: Dir, prefix: string)
    ensures KindData(dir, prefix).Ok? ==> Source(dir, prefix).Ok?
    ensures Source(dir, prefix).Ok? ==>
      KindData(dir, prefix) == DataDictionary(Source(dir, prefix).value.0, Source(dir, prefix).value.1)
  {
  }

  /** Every cell of a merged report: its column is a file of the kind's
      source folder (a temporary file for type-2 reports), read as pairs, and
      the cell is that file's value for the row's description, or `0` when
      it has none. */
  lemma MergeKindCell(dir: Dir, prefix: string, i: int, j: int)
    requires MergeKind(dir, prefix).Ok?
    requires 1 <= i < |MergeKind(dir, prefix).value|
    requires 1 <= j < |MergeKind(dir, prefix).value[0]|
    ensures Source(dir, prefix).Ok?
    ensures var (src, tag) := Source(dir, prefix).value;
      var t := MergeKind(dir, prefix).value;
      var f := t[0][j];
      && f in src && src[f].File? && StartsWith(f, tag)
      && ReadDict(src[f].text).Ok?
      && j < |t[i]|
      && t[i][j] == Cell(ReadDict(src[f].text).value, t[i][0])
  {
    KindDataOfSource(dir, prefix);
    var data := KindData(dir, prefix).value;
    var t := MergedTable(prefix, data);
    assert 1 <= j <= |data| by {
      assert |t[0]| == |SortedKeys(data)| + 1;
    }
    MergedCell(prefix, data, i, j);
    MergedTableHeader(prefix, data);
    MergedTableRectangular(prefix, data);
  }

  /** The steps all succeed: every table is kept and nothing fails. */
  lemma StopAtFailureAllOk(steps: seq<(string, Result<seq<Row>>)>)
    requires forall i :: 0 <= i < |steps| ==> steps[i].1.Ok?
    ensures var m := StopAtFailure(steps);
      m.failure.None? && |m.reports| == |steps|
      && forall i :: 0 <= i < |steps| ==> m.reports[i] == (steps[i].0, steps[i].1.value)
  {
  }

  /** Step `k` is the first to fail: the tables before it are kept and its
      error ends the merge. */
  lemma StopAtFailureAt(steps: seq<(string, Result<seq<Row>>)>, k: int)
    requires 0 <= k < |steps|
    requires forall i :: 0 <= i < k ==> steps[i].1.Ok?
    requires steps[k].1.Err?
    ensures var m := StopAtFailure(steps);
      m.failure == Some(steps[k].1.error) && |m.reports| == k
  {
  }

  /** The merge step of kind `k`. */
  lemma StepOf(d: Dir, k: int)
    requires 0 <= k < |ReportPrefixes|
    ensures var p := ReportPrefixes[k]; var step := Steps(d)[k];
      && step.0 == MergedName(p)
      && (step.1.Ok? <==> KindData(d, p).Ok?)
      && (step.1.Ok? ==> step.1.value == MergedTable(p, KindData(d, p).value))
      && (step.1.Err? ==> step.1.error == KindData(d, p).error)
  {
  }

  /** When every kind's data reads, the merge writes the three reports, in
      order, each the pivoted table of its kind's data, and does not fail. */
  lemma CompareReportsAllRead(d: Dir)
    requires forall k :: 0 <= k < |ReportPrefixes| ==> KindData(d, ReportPrefixes[k]).Ok?
    ensures var m := CompareReports(Some(d));
      && m.failure.None?
      && |m.reports| == |ReportPrefixes|
      && forall k :: 0 <= k < |ReportPrefixes| ==>
           m.reports[k] == (MergedName(ReportPrefixes[k]), MergedTable(ReportPrefixes[k], KindData(d, ReportPrefixes[k]).value))
  {
    var steps := Steps(d);
    forall k | 0 <= k < |steps|
      ensures steps[k].1.Ok? && steps[k].0 == MergedName(ReportPrefixes[k])
      ensures steps[k].1.value == MergedTable(ReportPrefixes[k], KindData(d, ReportPrefixes[k]).value)
    {
      StepOf(d, k);
    }
    StopAtFailureAllOk(steps);
  }

  /** When kind `k` is the first whose data does not read, the merge writes
      the reports of the kinds before it and stops with that kind's error. */
  lemma CompareReportsStopsAt(d: Dir, k: int)
    requires 0 <= k < |ReportPrefixes|
    requires forall j :: 0 <= j < k ==> KindData(d, ReportPrefixes[j]).Ok?
    requires KindData(d, ReportPrefixes[k]).Err?
    ensures var m := CompareReports(Some(d));
      && m.failure == Some(KindData(d, ReportPrefixes[k]).error)
      && |m.reports| == k
      && forall j :: 0 <= j < k ==>
           m.reports[j] == (MergedName(ReportPrefixes[j]), MergedTable(ReportPrefixes[j], KindData(d, ReportPrefixes[j]).value))
  {
    var steps := Steps(d);
    forall j | 0 <= j <= k
      ensures steps[j].0 == MergedName(ReportPrefixes[j])
      ensures steps[j].1.Ok? <==> KindData(d, ReportPrefixes[j]).Ok?
      ensures steps[j].1.Ok? ==> steps[j].1.value == MergedTable(ReportPrefixes[j], KindData(d, ReportPrefixes[j]).value)
      ensures steps[j].1.Err? ==> steps[j].1.error == KindData(d, ReportPrefixes[j]).error
    {
      StepOf(d, j);
    }
    StopAtFailureAt(steps, k);
  }

  /** Where two names first differ, a name starting with one does not start
      with the other. */
  lemma StartsApart(s: string, p: string, q: string, k: nat)
    requires k < |p| && k < |q| && p[k] != q[k]
    requires StartsWith(s, p)
    ensures !StartsWith(s, q)
  {
    assert s[k] == p[k];
  }

  /** A merged report never starts with the prefix of a kind merged after
      it, nor with the temporary files' tag, so a later kind does not read it
      (`MergeKindAfterWrite`). */
  lemma MergedNamesApart()
    ensures !StartsWith(MergedName(SummaryPrefix), Type1Prefix)
    ensures !StartsWith(MergedName(SummaryPrefix), Type2Prefix)
    ensures !StartsWith(MergedName(Type1Prefix), Type2Prefix)
    ensures forall p :: p in ReportPrefixes ==> !StartsWith(MergedName(p), TempTag)
  {
    forall p | p in ReportPrefixes
      ensures StartsWith(MergedName(p), p)
    {
      assert MergedName(p)[..|p|] == p;
    }
    StartsApart(MergedName(SummaryPrefix), SummaryPrefix, Type1Prefix, 0);
    StartsApart(MergedName(SummaryPrefix), SummaryPrefix, Type2Prefix, 0);
    StartsApart(MergedName(Type1Prefix), Type1Prefix, Type2Prefix, 20);
    StartsApart(MergedName(SummaryPrefix), SummaryPrefix, TempTag, 0);
    StartsApart(MergedName(Type1Prefix), Type1Prefix, TempTag, 0);
    StartsApart(MergedName(Type2Prefix), Type2Prefix, TempTag, 0);
  }

  /** The files read are all that matters: a second folder that holds the same
      files under the same names reads the same. */
  lemma {:induction false} DictsOfFrame(d1: Dir, d2: Dir, names: seq<string>)
    requires forall i :: 0 <= i < |names| ==> names[i] in d1 && d1[names[i]].File?
    requires forall i :: 0 <= i < |names| ==> names[i] in d2 && d2[names[i]] == d1[names[i]]
    ensures DictsOf(d2, names) == DictsOf(d1, names)
    decreases |names|
  {
    if |names| > 0 {
      var rest := names[1..];
      assert forall i :: 0 <= i < |rest| ==> rest[i] == names[i + 1];
      DictsOfFrame(d1, d2, rest);
    }
  }

  /** Writing a file whose name does not start with the prefix leaves the
      kind's data as it was. */
  lemma DataDictionaryFrame(dir: Dir, x: string, n: Node, prefix: string)
    requires !StartsWith(x, prefix)
    ensures DataDictionary(dir[x := n], prefix) == DataDictionary(dir, prefix)
  {
    MatchingFilesFrame(dir, x, n, prefix);
    DictsOfFrame(dir, dir[x := n], MatchingFiles(dir, prefix));
  }

  /** Writing kind `j`'s merged report, whatever it holds, does not change
      what a kind merged after it reads. */
  lemma MergeKindAfterWrite(dir: Dir, j: int, k: int, n: Node)
    requires 0 <= j < k < |ReportPrefixes|
    ensures MergeKind(dir[MergedName(ReportPrefixes[j]) := n], ReportPrefixes[k]) == MergeKind(dir, ReportPrefixes[k])
  {
    var x := MergedName(ReportPrefixes[j]);
    MergedNamesApart();
    if k == 1 {
      DataDictionaryFrame(dir, x, n, Type1Prefix);
    } else {
      Type2DataFrame(dir, x, n);
    }
  }

  /** Writing a file that is neither a type-2 report nor a temporary file
      leaves the type-2 data as it was: the temporary files come out the
      same, and the written file is not one of them. */
  lemma Type2DataFrame(dir: Dir, x: string, n: Node)
    requires !StartsWith(x, Type2Prefix) && !StartsWith(x, TempTag)
    ensures KindData(dir[x := n], Type2Prefix) == KindData(dir, Type2Prefix)
  {
    Collapse.TempFolderFrame(dir, x, n);
    if Collapse.TempFolder(dir).Ok? {
      DataDictionaryFrame(Collapse.TempFolder(dir).value, x, n, TempTag);
    }
  }

  /** The folder once the first `|written|` kinds' merged reports are written
      into it, the i-th holding `written[i]`. */
  function WriteMerged(dir: Dir, written: seq<Node>): Dir
    requires |written| <= |ReportPrefixes|
    decreases |written|
  {
    if |written| == 0 then dir
    else
      var last := |written| - 1;
      WriteMerged(dir, written[..last])[MergedName(ReportPrefixes[last]) := written[last]]
  }

  /** Each kind is merged from the folder as it was before the merge began:
      the reports written by the kinds before it, whatever they hold, change
      nothing it reads. So taking every kind over the original folder, as
      `Steps` does, is what the sequence of merges computes. */
  lemma {:induction false} MergeSeesFolderBefore(dir: Dir, written: seq<Node>, k: int)
    requires |written| <= k < |ReportPrefixes|
    ensures MergeKind(WriteMerged(dir, written), ReportPrefixes[k]) == MergeKind(dir, ReportPrefixes[k])
    decreases |written|
  {
    if |written| > 0 {
      var last := |written| - 1;
      MergeKindAfterWrite(WriteMerged(dir, written[..last]), last, k, written[last]);
      MergeSeesFolderBefore(dir, written[..last], k);
    }
  }

  /** A merged report does start with its own kind's prefix: a later merge
      over the same folder reads it as one more repository's report. */
  lemma MergedNameMatchesOwnKind(prefix: string)
    ensures StartsWith(MergedName(prefix), prefix)
  {
    assert MergedName(prefix)[..|prefix|] == prefix;
  }

  /** A text whose first line is not empty and holds no tab does not read as
      pairs: `dict` is given a row of one field. */
  lemma ReadDictOneField(lines: seq<string>)
    requires |lines| > 0 && lines[0] != "" && '\t' !in lines[0]
    requires forall i :: 0 <= i < |lines| ==> '\n' !in lines[i]
    ensures ReadDict(Unlines(lines)).Err?
  {
    LinesUnlines(lines);
    SplitJoin([lines[0]], '\t');
    assert ReadRows(Unlines(lines))[0] == [lines[0]];
  }

  /** A second merge over a folder that still holds the first merge's summary
      report stops at once. That report starts with the summary prefix, and
      its comma-separated lines hold no tab, so it does not read as pairs: no
      report is written and the summary kind's error ends the merge. */
  lemma RemergeStops(dir: Dir, lines: seq<string>)
    requires MergedName(SummaryPrefix) in dir && dir[MergedName(SummaryPrefix)] == File(Unlines(lines))
    requires |lines| > 0 && lines[0] != "" && '\t' !in lines[0]
    requires forall i :: 0 <= i < |lines| ==> '\n' !in lines[i]
    ensures CompareReports(Some(dir)).reports == []
    ensures CompareReports(Some(dir)).failure == Some(KindData(dir, SummaryPrefix).error)
  {
    ReadDictOneField(lines);
    MergedNameMatchesOwnKind(SummaryPrefix);
    assert KindData(dir, ReportPrefixes[0]).Err?;
    CompareReportsStopsAt(dir, 0);
  }
}
