/** The two report writers of the post-processing step: category counts as
    `label\tcount` lines, and per-file capability sets as a 0/1 incidence
    matrix. */
module Writers {
  import opened Wrappers
  import opened Strings
  import opened Decimal
  import opened Tsv

  /** Writer 1: one `label\tcount` line per label, labels in ascending order,
      no header. */
  function CountsReport(counts: map<string, nat>): string
  {
    RenderPairs(SortSet(counts.Keys), counts)
  }

  /** The lines are the label/count pairs in ascending label order, and
      nothing at all for an empty mapping. */
  lemma CountsReportLines(counts: map<string, nat>)
    requires forall k :: k in counts ==> CleanField(k)
    ensures var keys := SortSet(counts.Keys);
      && Lines(CountsReport(counts)) == PairLines(keys, counts)
      && StrictlySorted(keys) && (forall k :: k in keys <==> k in counts)
    ensures counts == map[] ==> CountsReport(counts) == ""
  {
    var keys := SortSet(counts.Keys);
    var ls := PairLines(keys, counts);
    forall i | 0 <= i < |ls|
      ensures '\n' !in ls[i]
    {
      assert keys[i] in counts;
      ReadPairLine(keys[i], NatToDecimal(counts[keys[i]]));
      JoinAvoids([keys[i], NatToDecimal(counts[keys[i]])], '\t', '\n');
    }
    LinesUnlines(ls);
    if counts == map[] {
      assert |keys| == 0;
    }
  }

  /** Reading the report back as the merger does recovers the counts, as
      decimal text. */
  lemma CountsReportReadBack(counts: map<string, nat>)
    requires forall k :: k in counts ==> CleanField(k)
    ensures RowsToDict(ReadRows(CountsReport(counts))) == Ok(DecimalMap(counts))
  {
    var keys := SortSet(counts.Keys);
    ReadBackPairs(keys, counts);
    DecimalTextOfAllKeys(keys, counts);
  }

  /** The single line of a repository whose rules fell twice into one category. */
  lemma CountsReportExample()
    ensures CountsReport(map["host-interaction" := 2]) == "host-interaction\t2\n"
  {
    var m := map["host-interaction" := 2];
    SortSetOf(m.Keys, ["host-interaction"]);
    assert NatToDecimal(2) == "2";
  }

  const SampleHeader := "Sample"

  /** Every namespace extracted from any file. */
  function Capabilities(lists: map<string, seq<string>>): set<string>
  {
    set f, c | f in lists && c in lists[f] :: c
  }

  /** A capability is in the set exactly when some file's list holds it. */
  lemma CapabilitiesSpec(lists: map<string, seq<string>>, c: string)
    ensures c in Capabilities(lists) <==> exists f :: f in lists && c in lists[f]
  {
  }

  /** The header's capabilities: every one extracted, once, in ascending order. */
  function Columns(lists: map<string, seq<string>>): (caps: seq<string>)
    ensures StrictlySorted(caps) && forall c :: c in caps <==> c in Capabilities(lists)
  {
    SortSet(Capabilities(lists))
  }

  /** `1` for each capability in the list, `0` for the others. */
  function Cells(caps: seq<string>, list: seq<string>): (cells: seq<string>)
    ensures |cells| == |caps|
  {
    seq(|caps|, j requires 0 <= j < |caps| => if caps[j] in list then "1" else "0")
  }

  /** A cell is `1` exactly when the list holds the column's capability, and `0` otherwise. */
  lemma CellsSpec(caps: seq<string>, list: seq<string>, j: int)
    requires 0 <= j < |caps|
    ensures Cells(caps, list)[j] == "1" || Cells(caps, list)[j] == "0"
    ensures Cells(caps, list)[j] == "1" <==> caps[j] in list
  {
  }

  /** A file's row: its name, then its cells. */
  function FileRow(lists: map<string, seq<string>>, f: string): (row: Row)
    requires f in lists
    ensures |row| == |Columns(lists)| + 1
  {
    [f] + Cells(Columns(lists), lists[f])
  }

  /** Writer 2's table: a `Sample` header followed by the sorted capabilities,
      then one row per file in ascending order. */
  function IncidenceTable(lists: map<string, seq<string>>): (t: seq<Row>)
    ensures |t| == |lists| + 1
    ensures t[0] == [SampleHeader] + Columns(lists)
    ensures forall i :: 1 <= i < |t| ==> SortedKeys(lists)[i - 1] in lists && t[i] == FileRow(lists, SortedKeys(lists)[i - 1])
  {
    var files := SortedKeys(lists);
    var rows := seq(|files|, i requires 0 <= i < |files| => FileRow(lists, files[i]));
    var t := [[SampleHeader] + Columns(lists)] + rows;
    assert forall i :: 1 <= i < |t| ==> files[i - 1] in lists && t[i] == FileRow(lists, files[i - 1]) by {
      forall i | 1 <= i < |t|
        ensures files[i - 1] in lists && t[i] == FileRow(lists, files[i - 1])
      {
        assert t[i] == rows[i - 1];
      }
    }
    t
  }

  /** Every row is as wide as the header. */
  lemma IncidenceTableRectangular(lists: map<string, seq<string>>)
    ensures var t := IncidenceTable(lists); forall i :: 0 <= i < |t| ==> |t[i]| == |t[0]|
  {
  }

  /** The header lists every capability extracted from any file, once, in
      ascending order. */
  lemma IncidenceHeader(lists: map<string, seq<string>>)
    ensures var t := IncidenceTable(lists);
      && t[0][0] == SampleHeader
      && StrictlySorted(t[0][1..])
      && (forall c :: c in t[0][1..] <==> exists f :: f in lists && c in lists[f])
  {
    var t := IncidenceTable(lists);
    assert t[0][1..] == Columns(lists);
    forall c
      ensures c in t[0][1..] <==> exists f :: f in lists && c in lists[f]
    {
      CapabilitiesSpec(lists, c);
    }
  }

  /** The rows name every file once, in ascending order. */
  lemma IncidenceFiles(lists: map<string, seq<string>>)
    ensures var t := IncidenceTable(lists);
      && (forall i :: 1 <= i < |t| ==> t[i][0] in lists)
      && (forall i, j :: 1 <= i < j < |t| ==> Less(t[i][0], t[j][0]))
      && (forall f :: f in lists ==> exists i :: 1 <= i < |t| && t[i][0] == f)
  {
    var t := IncidenceTable(lists);
    var files := SortedKeys(lists);
    forall i | 1 <= i < |t|
      ensures t[i][0] == files[i - 1] && t[i][0] in lists
    {
    }
    forall i, j | 1 <= i < j < |t|
      ensures Less(t[i][0], t[j][0])
    {
      assert Less(files[i - 1], files[j - 1]);
    }
    forall f | f in lists
      ensures exists i :: 1 <= i < |t| && t[i][0] == f
    {
      var i :| 0 <= i < |files| && files[i] == f;
      assert t[i + 1][0] == f;
    }
  }

  /** A cell is `1` exactly when its file's list holds its column's
      capability, and `0` otherwise. */
  lemma IncidenceCell(lists: map<string, seq<string>>, i: int, j: int)
    requires 1 <= i <= |lists| && 1 <= j <= |Columns(lists)|
    ensures var t := IncidenceTable(lists);
      && t[i][0] in lists
      && (t[i][j] == "1" || t[i][j] == "0")
      && (t[i][j] == "1" <==> t[0][j] in lists[t[i][0]])
  {
    var f := SortedKeys(lists)[i - 1];
    TableCell(lists, i, j);
    CellsSpec(Columns(lists), lists[f], j - 1);
  }

  /** Where a cell of the table comes from: its row's file and its column's
      capability. */
  lemma TableCell(lists: map<string, seq<string>>, i: int, j: int)
    requires 1 <= i <= |lists| && 1 <= j <= |Columns(lists)|
    ensures var t := IncidenceTable(lists); var f := SortedKeys(lists)[i - 1];
      && f in lists && t[i][0] == f
      && t[0][j] == Columns(lists)[j - 1]
      && t[i][j] == Cells(Columns(lists), lists[f])[j - 1]
  {
    var t := IncidenceTable(lists);
    var caps := Columns(lists);
    var f := SortedKeys(lists)[i - 1];
    var cells := Cells(caps, lists[f]);
    assert t[i] == [f] + cells;
    ConsIndex(f, cells, j);
    ConsIndex(SampleHeader, caps, j);
  }

  /** The capabilities marked `1` in a file's row are exactly the distinct
      namespaces of its list: repeated namespaces do not matter. */
  lemma RecoverCapabilities(lists: map<string, seq<string>>, i: int)
    requires 1 <= i <= |lists|
    ensures var t := IncidenceTable(lists);
      t[i][0] in lists
      && (set j | 1 <= j < |t[0]| && t[i][j] == "1" :: t[0][j]) == (set c | c in lists[t[i][0]])
  {
    var t := IncidenceTable(lists);
    var f := SortedKeys(lists)[i - 1];
    assert t[i][0] == f;
    var marked := set j | 1 <= j < |t[0]| && t[i][j] == "1" :: t[0][j];
    forall c | c in marked
      ensures c in lists[f]
    {
      var j :| 1 <= j < |t[0]| && t[i][j] == "1" && t[0][j] == c;
      MarkedIsListed(lists, i, j);
    }
    forall c | c in lists[f]
      ensures c in marked
    {
      var j := ListedIsMarked(lists, i, c);
    }
  }

  /** A `1` in a file's row sits under a namespace of that file's list. */
  lemma MarkedIsListed(lists: map<string, seq<string>>, i: int, j: int)
    requires 1 <= i <= |lists|
    requires var t := IncidenceTable(lists); 1 <= j < |t[0]| && t[i][j] == "1"
    ensures var t := IncidenceTable(lists); t[0][j] in lists[SortedKeys(lists)[i - 1]]
  {
    IncidenceCell(lists, i, j);
  }

  /** A namespace some file lists has a column of its own. */
  lemma ColumnOf(lists: map<string, seq<string>>, f: string, c: string) returns (k: int)
    requires f in lists && c in lists[f]
    ensures 0 <= k < |Columns(lists)| && Columns(lists)[k] == c
  {
    CapabilitiesSpec(lists, c);
    var caps := Columns(lists);
    assert c in caps;
    k :| 0 <= k < |caps| && caps[k] == c;
  }

  /** Every namespace of a file's list has a `1` in that file's row. */
  lemma ListedIsMarked(lists: map<string, seq<string>>, i: int, c: string) returns (j: int)
    requires 1 <= i <= |lists|
    requires c in lists[SortedKeys(lists)[i - 1]]
    ensures var t := IncidenceTable(lists); 1 <= j < |t[0]| && t[i][j] == "1" && t[0][j] == c
  {
    var k := ColumnOf(lists, SortedKeys(lists)[i - 1], c);
    j := k + 1;
    IncidenceCell(lists, i, j);
  }

  /** The table depends on each list only through its set of namespaces. */
  lemma IncidenceTableOfSets(lists: map<string, seq<string>>, other: map<string, seq<string>>)
    requires lists.Keys == other.Keys
    requires forall f, c :: f in lists ==> (c in lists[f] <==> c in other[f])
    ensures IncidenceTable(lists) == IncidenceTable(other)
  {
    assert Capabilities(lists) == Capabilities(other) by {
      forall c
        ensures c in Capabilities(lists) <==> c in Capabilities(other)
      {
        CapabilitiesSpec(lists, c);
        CapabilitiesSpec(other, c);
      }
    }
    var caps := Columns(lists);
    assert caps == Columns(other);
    var files := SortedKeys(lists);
    assert files == SortedKeys(other);
    var t, u := IncidenceTable(lists), IncidenceTable(other);
    forall i | 0 <= i < |t|
      ensures t[i] == u[i]
    {
      if i > 0 {
        var f := files[i - 1];
        assert Cells(caps, lists[f]) == Cells(caps, other[f]);
      }
    }
  }

  /** Writer 2: the table as tab-separated lines. */
  function IncidenceReport(lists: map<string, seq<string>>): string
  {
    RenderRows(IncidenceTable(lists))
  }

  /** Reading the report back gives the table again, provided file names and
      namespaces hold no tab, line break or quote. */
  lemma IncidenceReportReadBack(lists: map<string, seq<string>>)
    requires forall f :: f in lists ==> CleanField(f) && f != ""
    requires forall f, c :: f in lists && c in lists[f] ==> CleanField(c)
    ensures ReadRows(IncidenceReport(lists)) == IncidenceTable(lists)
  {
    var t := IncidenceTable(lists);
    forall i | 0 <= i < |t|
      ensures CleanRow(t[i])
    {
      TableRowClean(lists, i);
    }
    ReadRenderedRows(t);
  }

  /** Each row of writer 2's table survives the tab-separated round trip. */
  lemma TableRowClean(lists: map<string, seq<string>>, i: int)
    requires forall f :: f in lists ==> CleanField(f) && f != ""
    requires forall f, c :: f in lists && c in lists[f] ==> CleanField(c)
    requires 0 <= i <= |lists|
    ensures CleanRow(IncidenceTable(lists)[i])
  {
    if i == 0 {
      HeaderRowClean(lists);
    } else {
      FileRowClean(lists, SortedKeys(lists)[i - 1]);
    }
  }

  lemma HeaderRowClean(lists: map<string, seq<string>>)
    requires forall f, c :: f in lists && c in lists[f] ==> CleanField(c)
    ensures CleanRow([SampleHeader] + Columns(lists))
  {
    var caps := Columns(lists);
    var row := [SampleHeader] + caps;
    forall k | 0 <= k < |row|
      ensures CleanField(row[k])
    {
      if k > 0 {
        assert row[k] == caps[k - 1];
        CapabilitiesSpec(lists, caps[k - 1]);
      }
    }
    assert row[0] != "";
  }

  lemma FileRowClean(lists: map<string, seq<string>>, f: string)
    requires f in lists && CleanField(f) && f != ""
    requires forall c :: c in lists[f] ==> CleanField(c)
    ensures CleanRow(FileRow(lists, f))
  {
    var caps := Columns(lists);
    var cells := Cells(caps, lists[f]);
    var row := FileRow(lists, f);
    assert row == [f] + cells;
    forall k | 0 <= k < |row|
      ensures CleanField(row[k])
    {
      if k > 0 {
        assert row[k] == cells[k - 1];
        CellsSpec(caps, lists[f], k - 1);
      }
    }
    assert row[0] != "";
  }


  /** One file with one namespace: a one-column matrix holding a single `1`. */
  lemma IncidenceOfOne(f: string, c: string)
    ensures IncidenceTable(map[f := [c]]) == [[SampleHeader, c], [f, "1"]]
  {
    var lists := map[f := [c]];
    assert Capabilities(lists) == {c} by {
      forall d
        ensures d in Capabilities(lists) <==> d == c
      {
        CapabilitiesSpec(lists, d);
        assert f in lists && lists[f] == [c];
      }
    }
    SortSetOf({c}, [c]);
    SortSetOf(lists.Keys, [f]);
    assert Columns(lists) == [c];
    assert SortedKeys(lists) == [f];
    assert Cells([c], [c]) == ["1"];
    var t := IncidenceTable(lists);
    assert |t| == 2;
    assert t[0] == [SampleHeader, c];
    assert t[1] == [f, "1"];
    assert t == [t[0], t[1]];
  }
}
