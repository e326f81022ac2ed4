/** The merger's preparation of writer-2 reports: each repository's incidence
    table is read back with `csv.DictReader`, its columns are summed into a
    per-capability count, and the counts are written to a temporary
    `Temp_File_<repository>.txt` in writer 1's format. */
module Collapse {
  import opened Wrappers
  import opened Strings
  import opened Decimal
  import opened Tsv
  import opened Folder
  import Writers

  const SampleColumn := "Sample"

  /** The index of the last occurrence of `key` in `header`, or -1. */
  function LastPosition(header: Row, key: string): (j: int)
    ensures -1 <= j < |header|
    ensures j >= 0 ==> header[j] == key
    ensures forall k :: j < k < |header| ==> header[k] != key
    decreases |header|
  {
    if |header| == 0 then -1
    else if header[|header| - 1] == key then |header| - 1
    else LastPosition(header[..|header| - 1], key)
  }

  /** In a header without repetitions, a name's last position is its only one. */
  lemma LastPositionOfDistinct(header: Row, p: int)
    requires 0 <= p < |header|
    requires forall q :: 0 <= q < |header| && q != p ==> header[q] != header[p]
    ensures LastPosition(header, header[p]) == p
  {
  }

  /** The value `csv.DictReader` gives `key` in a row read under `header`: the
      field under the key's last occurrence (a later duplicate column wins),
      or `None` (the default `restval`) when the row is too short to reach it. */
  function Field(header: Row, row: Row, key: string): (v: Option<string>)
    requires key in header
    ensures v.Some? <==> LastPosition(header, key) < |row|
  {
    var j := LastPosition(header, key);
    if j < |row| then Some(row[j]) else None
  }

  /** `int(RowDict[key])`: a number only for a present field spelled in decimal. */
  function CellValue(header: Row, row: Row, key: string): Option<nat>
    requires key in header
  {
    var f := Field(header, row, key);
    if f.Some? then ParseDecimal(f.value) else None
  }

  /** The counted columns: every header name other than `Sample`. */
  function Counted(header: Row): (keys: set<string>)
    ensures forall k :: k in keys <==> k in header && k != SampleColumn
  {
    set k | k in header && k != SampleColumn
  }

  /** The total of one column over the data rows, or `None` as soon as one of
      its cells is not a number. */
  function ColumnSum(header: Row, data: seq<Row>, key: string): (s: Option<nat>)
    requires key in header
    ensures s.Some? <==> forall i :: 0 <= i < |data| ==> CellValue(header, data[i], key).Some?
    decreases |data|
  {
    if |data| == 0 then Some(0)
    else
      match CellValue(header, data[0], key)
      case None => None
      case Some(v) =>
        match ColumnSum(header, data[1..], key)
        case None =>
          assert !CellValue(header, data[1..][0 - 0], key).Some? || exists i :: 0 <= i < |data| - 1 && !CellValue(header, data[1..][i], key).Some?;
          None
        case Some(rest) =>
          assert forall i :: 1 <= i < |data| ==> data[i] == data[1..][i - 1];
          Some(v + rest)
  }

  /** The sum of two optional numbers, `None` when either is missing. */
  function AddOpt(a: Option<nat>, b: Option<nat>): Option<nat>
  {
    if a.Some? && b.Some? then Some(a.value + b.value) else None
  }

  /** The loop adds the rows one after the other: summing a column over one
      more row adds that row's cell to the sum so far, and a cell that is not a
      number spoils the sum. */
  lemma {:induction false} ColumnSumAppend(header: Row, data: seq<Row>, row: Row, key: string)
    requires key in header
    ensures ColumnSum(header, data + [row], key) == AddOpt(ColumnSum(header, data, key), CellValue(header, row, key))
    decreases |data|
  {
    var all := data + [row];
    if |data| == 0 {
      assert all == [row] && all[1..] == [];
    } else {
      assert all[0] == data[0] && all[1..] == data[1..] + [row];
      ColumnSumAppend(header, data[1..], row, key);
    }
  }

  /** The rows `csv.DictReader` yields: empty lines are skipped. */
  function NonEmptyRows(rows: seq<Row>): (r: seq<Row>)
    ensures |r| <= |rows|
    ensures forall i :: 0 <= i < |r| ==> r[i] != [] && r[i] in rows
    ensures (forall i :: 0 <= i < |rows| ==> rows[i] != []) ==> r == rows
    decreases |rows|
  {
    if |rows| == 0 then []
    else
      assert forall i :: 1 <= i < |rows| ==> rows[1..][i - 1] == rows[i];
      if rows[0] == [] then NonEmptyRows(rows[1..])
      else
        assert rows == [rows[0]] + rows[1..];
        [rows[0]] + NonEmptyRows(rows[1..])
  }

  /** The header `csv.DictReader` takes: the first line, even when it is empty. */
  function Header(rows: seq<Row>): Row
  {
    if |rows| == 0 then [] else rows[0]
  }

  /** The data rows under that header. */
  function DataRows(rows: seq<Row>): seq<Row>
  {
    if |rows| == 0 then [] else NonEmptyRows(rows[1..])
  }

  /** Every counted column has a number in every data row. */
  predicate AllNumbers(header: Row, data: seq<Row>)
  {
    forall k :: k in Counted(header) ==> ColumnSum(header, data, k).Some?
  }

  /** The summing loop over one report, given the counts left over from the
      previously collapsed report (`TempDict` survives from one file to the
      next). The first data row fixes the counted columns; a first row longer
      than the header adds a `None` key whose value is a list, on which `int`
      fails. A report without data rows leaves the previous counts in place,
      and fails when there are none. */
  function CollapseRows(rows: seq<Row>, prev: Option<map<string, nat>>): (r: Result<map<string, nat>>)
    ensures |DataRows(rows)| == 0 ==> (r.Ok? <==> prev.Some?) && (prev.Some? ==> r == Ok(prev.value))
    ensures |DataRows(rows)| > 0 ==>
      (r.Ok? <==> |DataRows(rows)[0]| <= |Header(rows)| && AllNumbers(Header(rows), DataRows(rows)))
    ensures |DataRows(rows)| > 0 && r.Ok? ==>
      r.value.Keys == Counted(Header(rows))
      && forall k :: k in r.value ==> Some(r.value[k]) == ColumnSum(Header(rows), DataRows(rows), k)
  {
    var header, data := Header(rows), DataRows(rows);
    if |data| == 0 then
      if prev.Some? then Ok(prev.value)
      else Err("UnboundLocalError: local variable 'TempDict' referenced before assignment")
    else if |data[0]| > |header| then
      Err("TypeError: int() argument must be a string, a bytes-like object or a number, not 'list'")
    else if !AllNumbers(header, data) then
      Err("ValueError: invalid literal for int() with base 10")
    else
      Ok(map k | k in Counted(header) :: ColumnSum(header, data, k).value)
  }

  /** One writer-2 report, collapsed. */
  function CollapseReport(text: string, prev: Option<map<string, nat>>): Result<map<string, nat>>
  {
    CollapseRows(ReadRows(text), prev)
  }

  /** The number of files whose list names capability `c`. */
  function FileCount(lists: map<string, seq<string>>, c: string): nat
  {
    |set f | f in lists && c in lists[f]|
  }

  /** The number of names among `fs`, counted with repetition, whose list
      names capability `c`. */
  function MarkedCount(fs: seq<string>, lists: map<string, seq<string>>, c: string): nat
    decreases |fs|
  {
    if |fs| == 0 then 0
    else (if fs[0] in lists && c in lists[fs[0]] then 1 else 0) + MarkedCount(fs[1..], lists, c)
  }

  /** A `1` or `0` cell reads as that number. */
  lemma BitValue(header: Row, row: Row, c: string, b: bool)
    requires c in header
    requires LastPosition(header, c) < |row| && row[LastPosition(header, c)] == (if b then "1" else "0")
    ensures CellValue(header, row, c) == Some(if b then 1 else 0)
  {
    assert DigitsValue("1") == 1 && DigitsValue("0") == 0;
  }

  /** Summing one column of `1`/`0` cells counts the rows marked `1`. */
  lemma {:induction false} ColumnCount(header: Row, rows: seq<Row>, fs: seq<string>,
                                       lists: map<string, seq<string>>, c: string, p: int)
    requires c in header && LastPosition(header, c) == p
    requires |rows| == |fs|
    requires forall i :: 0 <= i < |fs| ==> fs[i] in lists
    requires forall i :: 0 <= i < |rows| ==> p < |rows[i]| && rows[i][p] == (if c in lists[fs[i]] then "1" else "0")
    ensures ColumnSum(header, rows, c) == Some(MarkedCount(fs, lists, c))
    decreases |rows|
  {
    if |rows| > 0 {
      var rs, gs := rows[1..], fs[1..];
      assert forall i :: 0 <= i < |gs| ==> gs[i] == fs[i + 1];
      assert forall i :: 0 <= i < |rs| ==> rs[i] == rows[i + 1];
      ColumnCount(header, rs, gs, lists, c, p);
      BitValue(header, rows[0], c, c in lists[fs[0]]);
    }
  }

  /** Over distinct names, the count is the number of files marked. */
  lemma {:induction false} MarkedCountOfDistinct(fs: seq<string>, lists: map<string, seq<string>>, c: string)
    requires forall i, j :: 0 <= i < j < |fs| ==> fs[i] != fs[j]
    ensures MarkedCount(fs, lists, c) == |set f | f in fs && f in lists && c in lists[f]|
    decreases |fs|
  {
    if |fs| == 0 {
      assert forall f :: f !in fs;
    } else {
      var gs := fs[1..];
      assert forall i, j :: 0 <= i < j < |gs| ==> gs[i] != gs[j] by {
        assert forall i :: 0 <= i < |gs| ==> gs[i] == fs[i + 1];
      }
      MarkedCountOfDistinct(gs, lists, c);
      MarkedStep(fs, lists, c);
    }
  }

  /** The files marked among distinct names: the first name's mark plus the
      marks of the rest. */
  lemma MarkedStep(fs: seq<string>, lists: map<string, seq<string>>, c: string)
    requires |fs| > 0
    requires forall i, j :: 0 <= i < j < |fs| ==> fs[i] != fs[j]
    ensures |set f | f in fs && f in lists && c in lists[f]|
      == |set f | f in fs[1..] && f in lists && c in lists[f]| + (if fs[0] in lists && c in lists[fs[0]] then 1 else 0)
  {
    var gs := fs[1..];
    var marked := set f | f in fs && f in lists && c in lists[f];
    var tail := set f | f in gs && f in lists && c in lists[f];
    assert fs[0] !in gs by {
      assert forall j :: 0 <= j < |gs| ==> gs[j] == fs[j + 1] != fs[0];
    }
    assert forall f :: f in fs <==> f == fs[0] || f in gs by {
      assert fs == [fs[0]] + gs;
    }
    if fs[0] in lists && c in lists[fs[0]] {
      assert marked == tail + {fs[0]};
    } else {
      assert marked == tail;
    }
  }

  /** The sorted file names enumerate the files exactly once, so counting over
      them counts over the map. */
  lemma CountOverFiles(lists: map<string, seq<string>>, c: string)
    ensures MarkedCount(SortedKeys(lists), lists, c) == FileCount(lists, c)
  {
    var fs := SortedKeys(lists);
    SortedApart(fs);
    MarkedCountOfDistinct(fs, lists, c);
    assert (set f | f in fs && f in lists && c in lists[f]) == (set f | f in lists && c in lists[f]);
  }

  /** Writer 2's table read back by `csv.DictReader`: its first row is the
      header and every other row is data. */
  lemma IncidenceRows(lists: map<string, seq<string>>)
    requires |lists| > 0
    ensures var t := Writers.IncidenceTable(lists);
      Header(t) == t[0] && DataRows(t) == t[1..] && |t[1..]| == |lists| && |t[1..][0]| == |t[0]|
  {
    var t := Writers.IncidenceTable(lists);
    Writers.IncidenceTableRectangular(lists);
    forall i | 0 <= i < |t[1..]|
      ensures t[1..][i] != []
    {
      assert t[1..][i] == t[i + 1];
    }
  }

  /** Distinct sorted names are distinct. */
  lemma SortedDistinct(s: seq<string>)
    requires StrictlySorted(s)
    ensures forall i, j :: 0 <= i < |s| && 0 <= j < |s| && i != j ==> s[i] != s[j]
  {
    forall i, j | 0 <= i < |s| && 0 <= j < |s| && i != j
      ensures s[i] != s[j]
    {
      LessIrreflexive(s[i]);
    }
  }

  /** Sorted names, taken in order, are pairwise different. */
  lemma SortedApart(s: seq<string>)
    requires StrictlySorted(s)
    ensures forall i, j :: 0 <= i < j < |s| ==> s[i] != s[j]
  {
    SortedDistinct(s);
  }

  /** Under a first column followed by distinct sorted names, each name sits
      one place after its position among the names. */
  lemma PositionAfterFirst(first: string, names: seq<string>, k: int)
    requires StrictlySorted(names) && first !in names
    requires 0 <= k < |names|
    ensures LastPosition([first] + names, names[k]) == k + 1
  {
    var header := [first] + names;
    SortedDistinct(names);
    forall q | 0 <= q < |header| && q != k + 1
      ensures header[q] != header[k + 1]
    {
      if q > 0 {
        assert header[q] == names[q - 1];
      }
    }
    LastPositionOfDistinct(header, k + 1);
  }

  /** A capability's column in writer 2's table is the only one headed by it. */
  lemma IncidencePosition(lists: map<string, seq<string>>, c: string) returns (j: int)
    requires SampleColumn !in Writers.Capabilities(lists)
    requires c in Writers.Capabilities(lists)
    ensures var t := Writers.IncidenceTable(lists);
      1 <= j <= |Writers.Columns(lists)| && Writers.Columns(lists)[j - 1] == c
      && c in t[0] && LastPosition(t[0], c) == j
  {
    var caps := Writers.Columns(lists);
    var k :| 0 <= k < |caps| && caps[k] == c;
    PositionAfterFirst(SampleColumn, caps, k);
    j := k + 1;
  }

  /** A file's cell under a capability column. */
  lemma FileRowCell(lists: map<string, seq<string>>, f: string, j: int)
    requires f in lists
    requires 1 <= j <= |Writers.Columns(lists)|
    ensures Writers.FileRow(lists, f)[j] == (if Writers.Columns(lists)[j - 1] in lists[f] then "1" else "0")
  {
    Writers.CellsSpec(Writers.Columns(lists), lists[f], j - 1);
  }

  /** One cell of a capability column. */
  lemma IncidenceRowCell(lists: map<string, seq<string>>, i: int, j: int, c: string)
    requires 0 <= i < |lists|
    requires 1 <= j <= |Writers.Columns(lists)| && Writers.Columns(lists)[j - 1] == c
    ensures var rows := Writers.IncidenceTable(lists)[1..]; var fs := SortedKeys(lists);
      i < |rows| && j < |rows[i]| && rows[i][j] == (if c in lists[fs[i]] then "1" else "0")
  {
    var t := Writers.IncidenceTable(lists);
    var f := SortedKeys(lists)[i];
    assert t[1..][i] == t[i + 1] == Writers.FileRow(lists, f);
    FileRowCell(lists, f, j);
  }


  /** The cells of one capability column, file by file. */
  lemma IncidenceColumnCells(lists: map<string, seq<string>>, j: int, c: string)
    requires 1 <= j <= |Writers.Columns(lists)| && Writers.Columns(lists)[j - 1] == c
    ensures var rows := Writers.IncidenceTable(lists)[1..]; var fs := SortedKeys(lists);
      |rows| == |fs|
      && forall i :: 0 <= i < |fs| ==> j < |rows[i]| && rows[i][j] == (if c in lists[fs[i]] then "1" else "0")
  {
    forall i | 0 <= i < |SortedKeys(lists)|
      ensures var rows := Writers.IncidenceTable(lists)[1..]; var fs := SortedKeys(lists);
        j < |rows[i]| && rows[i][j] == (if c in lists[fs[i]] then "1" else "0")
    {
      IncidenceRowCell(lists, i, j, c);
    }
  }


  /** Each capability column of writer 2's table, summed, is that
      capability's file count. */
  lemma IncidenceColumn(lists: map<string, seq<string>>, c: string)
    requires SampleColumn !in Writers.Capabilities(lists)
    requires c in Writers.Capabilities(lists)
    ensures var t := Writers.IncidenceTable(lists);
      c in t[0] && ColumnSum(t[0], t[1..], c) == Some(FileCount(lists, c))
  {
    IncidenceColumnMarked(lists, c);
    CountOverFiles(lists, c);
  }

  /** Each capability column of writer 2's table, summed, counts the rows
      marked `1`. */
  lemma IncidenceColumnMarked(lists: map<string, seq<string>>, c: string)
    requires SampleColumn !in Writers.Capabilities(lists)
    requires c in Writers.Capabilities(lists)
    ensures var t := Writers.IncidenceTable(lists);
      c in t[0] && ColumnSum(t[0], t[1..], c) == Some(MarkedCount(SortedKeys(lists), lists, c))
  {
    var t := Writers.IncidenceTable(lists);
    var j := IncidencePosition(lists, c);
    IncidenceColumnCells(lists, j, c);
    IncidenceColumnAt(lists, c, j);
  }

  /** The column at position `j` of writer 2's table, headed by `c` and
      holding each file's mark for `c`, sums to the number of rows marked. */
  lemma IncidenceColumnAt(lists: map<string, seq<string>>, c: string, j: int)
    requires var t := Writers.IncidenceTable(lists); c in t[0] && LastPosition(t[0], c) == j
    requires var rows := Writers.IncidenceTable(lists)[1..]; var fs := SortedKeys(lists);
      |rows| == |fs|
      && forall i :: 0 <= i < |fs| ==> j < |rows[i]| && rows[i][j] == (if c in lists[fs[i]] then "1" else "0")
    ensures var t := Writers.IncidenceTable(lists);
      ColumnSum(t[0], t[1..], c) == Some(MarkedCount(SortedKeys(lists), lists, c))
  {
    var t := Writers.IncidenceTable(lists);
    ColumnCount(t[0], t[1..], SortedKeys(lists), lists, c, j);
  }

  /** The per-capability file counts. */
  function CapabilityCounts(lists: map<string, seq<string>>): (counts: map<string, nat>)
    ensures counts.Keys == Writers.Capabilities(lists)
  {
    map c | c in Writers.Capabilities(lists) :: FileCount(lists, c)
  }

  /** The counted columns of writer 2's table are the capabilities, and each
      sums to its file count. */
  lemma TableSums(lists: map<string, seq<string>>)
    requires SampleColumn !in Writers.Capabilities(lists)
    ensures var t := Writers.IncidenceTable(lists);
      && Counted(t[0]) == Writers.Capabilities(lists)
      && forall c :: c in Counted(t[0]) ==> ColumnSum(t[0], t[1..], c) == Some(FileCount(lists, c))
  {
    var t := Writers.IncidenceTable(lists);
    assert Counted(t[0]) == Writers.Capabilities(lists);
    forall c | c in Counted(t[0])
      ensures ColumnSum(t[0], t[1..], c) == Some(FileCount(lists, c))
    {
      IncidenceColumn(lists, c);
    }
  }

  /** The summing loop over writer 2's table yields the file counts. */
  lemma CollapseTable(lists: map<string, seq<string>>, prev: Option<map<string, nat>>)
    requires |lists| > 0
    requires SampleColumn !in Writers.Capabilities(lists)
    ensures CollapseRows(Writers.IncidenceTable(lists), prev) == Ok(CapabilityCounts(lists))
  {
    var t := Writers.IncidenceTable(lists);
    IncidenceRows(lists);
    TableSums(lists);
    CollapseSums(t, prev, CapabilityCounts(lists));
  }

  /** A report whose first data row fits under the header and whose counted
      columns sum to `expected` collapses to `expected`. */
  lemma CollapseSums(rows: seq<Row>, prev: Option<map<string, nat>>, expected: map<string, nat>)
    requires |DataRows(rows)| > 0 && |DataRows(rows)[0]| <= |Header(rows)|
    requires Counted(Header(rows)) == expected.Keys
    requires forall k :: k in Counted(Header(rows)) ==> ColumnSum(Header(rows), DataRows(rows), k) == Some(expected[k])
    ensures CollapseRows(rows, prev) == Ok(expected)
  {
    var r := CollapseRows(rows, prev);
    assert AllNumbers(Header(rows), DataRows(rows));
    assert r.Ok? && r.value.Keys == expected.Keys;
    forall k | k in r.value
      ensures r.value[k] == expected[k]
    {
      assert Some(r.value[k]) == ColumnSum(Header(rows), DataRows(rows), k);
    }
    assert r.value == expected;
  }


  /** Collapsing writer 2's report recovers, for every capability, the number
      of files whose list names it: the merged type-2 report counts files per
      capability. File names and namespaces must survive the tab-separated
      round trip and no namespace may be called `Sample`. */
  lemma CollapseIncidence(lists: map<string, seq<string>>, prev: Option<map<string, nat>>)
    requires |lists| > 0
    requires forall f :: f in lists ==> CleanField(f) && f != ""
    requires forall f, c :: f in lists && c in lists[f] ==> CleanField(c)
    requires SampleColumn !in Writers.Capabilities(lists)
    ensures CollapseReport(Writers.IncidenceReport(lists), prev) == Ok(CapabilityCounts(lists))
  {
    Writers.IncidenceReportReadBack(lists);
    CollapseTable(lists, prev);
  }

  /** A report with no data rows contributes the counts of the report before it. */
  lemma CollapseNoData(header: Row, prev: map<string, nat>)
    ensures CollapseRows([header], Some(prev)) == Ok(prev)
    ensures CollapseRows([header], None).Err?
  {
    assert DataRows([header]) == [];
  }

  /** A first data row longer than the header makes the collapse fail. */
  lemma CollapseLongFirstRow(rows: seq<Row>, prev: Option<map<string, nat>>)
    requires |DataRows(rows)| > 0 && |DataRows(rows)[0]| > |Header(rows)|
    ensures CollapseRows(rows, prev).Err?
  {
  }

  /** `\w` on ASCII text: letters, digits and the underscore. */
  predicate IsWordChar(ch: char)
  {
    ('a' <= ch <= 'z') || ('A' <= ch <= 'Z') || ('0' <= ch <= '9') || ch == '_'
  }

  predicate IsWord(w: string)
  {
    |w| > 0 && forall i :: 0 <= i < |w| ==> IsWordChar(w[i])
  }

  /** The length of the longest run of word characters at the start of `s`. */
  function WordRun(s: string): (n: nat)
    ensures n <= |s|
    ensures forall i :: 0 <= i < n ==> IsWordChar(s[i])
    ensures n < |s| ==> !IsWordChar(s[n])
    decreases |s|
  {
    if |s| == 0 || !IsWordChar(s[0]) then 0 else 1 + WordRun(s[1..])
  }

  /** A word followed by a non-word character (or by nothing) is exactly the
      leading run. */
  lemma {:induction false} WordRunOf(w: string, s: string)
    requires forall i :: 0 <= i < |w| ==> IsWordChar(w[i])
    requires |s| > 0 ==> !IsWordChar(s[0])
    ensures WordRun(w + s) == |w|
    decreases |w|
  {
    if |w| > 0 {
      assert (w + s)[1..] == w[1..] + s;
      WordRunOf(w[1..], s);
    } else {
      assert w + s == s;
    }
  }

  /** One letter of the pattern under `re.I`: the letter or its capital. */
  predicate AnyCase(ch: char, lower: char)
  {
    ch == lower || ch as int == lower as int - 32
  }

  /** `\.txt` matched case-insensitively at position `n` of `s`. */
  predicate TxtAt(s: string, n: nat)
  {
    n + 4 <= |s| && s[n] == '.' && AnyCase(s[n + 1], 't') && AnyCase(s[n + 2], 'x') && AnyCase(s[n + 3], 't')
  }

  /** `re.compile(Type2Prefix + '_(\w+)\.txt', re.I).match(name).group(1)`
      for a name: the type-2 prefix, an underscore, then the longest run of
      word characters (a shorter run would leave a word character where the
      dot must be), then `.txt` in any case; anything may follow. `None`
      where the match fails. */
  function RepoNameOf(name: string): (r: Option<string>)
    ensures r.Some? ==>
      IsWord(r.value)
      && StartsWith(name, Type2Prefix + "_" + r.value)
      && TxtAt(name, |Type2Prefix| + 1 + |r.value|)
  {
    if !StartsWith(name, Type2Prefix) then None
    else
      var rest := name[|Type2Prefix|..];
      if |rest| == 0 || rest[0] != '_' then None
      else
        var body := rest[1..];
        var n := WordRun(body);
        if n > 0 && TxtAt(body, n) then
          assert name == Type2Prefix + "_" + body[..n] + body[n..];
          Some(body[..n])
        else None
  }

  /** The name writer 2 gives a repository whose base name is a word yields
      that base name back. */
  lemma RepoNameOfReport(repo: string, tail: string)
    requires IsWord(repo)
    ensures StartsWith(Type2Prefix + "_" + repo + ".txt" + tail, Type2Prefix)
    ensures RepoNameOf(Type2Prefix + "_" + repo + ".txt" + tail) == Some(repo)
  {
    var name := Type2Prefix + "_" + repo + ".txt" + tail;
    assert name[..|Type2Prefix|] == Type2Prefix;
    var body := name[|Type2Prefix|..][1..];
    assert body == repo + (".txt" + tail);
    WordRunOf(repo, ".txt" + tail);
    assert body[..|repo|] == repo;
  }

  /** A repository name holding a non-word character defeats the pattern. */
  lemma RepoNameOfHyphen()
    ensures RepoNameOf(Type2Prefix + "_my-repo.txt") == None
  {
    var name := Type2Prefix + "_my-repo.txt";
    assert StartsWith(name, Type2Prefix) by {
      assert name[..|Type2Prefix|] == Type2Prefix;
    }
    var body := name[|Type2Prefix|..][1..];
    assert body == "my" + "-repo.txt";
    WordRunOf("my", "-repo.txt");
  }

  /** `'_'.join(['Temp_File', repo + '.txt'])` */
  function TempName(repo: string): (name: string)
    ensures StartsWith(name, TempTag)
  {
    var name := Join([TempTag, repo + ".txt"], '_');
    JoinTwo(TempTag, repo + ".txt", '_');
    assert name == TempTag + ("_" + repo + ".txt");
    assert name[..|TempTag|] == TempTag;
    name
  }

  /** Writing one repository's counts: the temporary file is named after the
      repository the report's name gives, and there is none to write when
      the name does not match the pattern. */
  function WriteTemp(name: string, sums: map<string, nat>, out: Dir): (r: Result<Dir>)
    requires StartsWith(name, Type2Prefix)
    ensures r.Ok? <==> RepoNameOf(name).Some?
    ensures r.Ok? ==> r.value == out[TempName(RepoNameOf(name).value) := File(Writers.CountsReport(sums))]
  {
    match RepoNameOf(name)
    case None => Err("AttributeError: 'NoneType' object has no attribute 'group'")
    case Some(repo) => Ok(out[TempName(repo) := File(Writers.CountsReport(sums))])
  }

  /** `CreateTempFiles`: the type-2 reports are collapsed in ascending name
      order, the counts of each written over `out` as a temporary file named
      after the repository. The first failure ends the merge. */
  function TempFiles(dir: Dir, names: seq<string>, prev: Option<map<string, nat>>, out: Dir): (r: Result<Dir>)
    requires forall i :: 0 <= i < |names| ==> names[i] in dir && dir[names[i]].File? && StartsWith(names[i], Type2Prefix)
    ensures r.Ok? ==> forall e :: e in out ==> e in r.value
    ensures r.Ok? ==> forall e :: e in r.value && (e !in out || r.value[e] != out[e]) ==> StartsWith(e, TempTag)
    ensures r.Ok? ==> forall i :: 0 <= i < |names| ==>
      RepoNameOf(names[i]).Some? && TempName(RepoNameOf(names[i]).value) in r.value
    decreases |names|
  {
    if |names| == 0 then Ok(out)
    else
      match CollapseReport(dir[names[0]].text, prev)
      case Err(e) => Err(e)
      case Ok(sums) =>
        match WriteTemp(names[0], sums, out)
        case Err(e) => Err(e)
        case Ok(next) =>
          var r := TempFiles(dir, names[1..], Some(sums), next);
          if r.Err? then r
          else
            TempFileWritten(out, TempName(RepoNameOf(names[0]).value), File(Writers.CountsReport(sums)), r.value);
            TempNamesWritten(names, r.value);
            r
  }

  /** Every report has its temporary file once the first has and the rest
      have. */
  lemma TempNamesWritten(names: seq<string>, r: Dir)
    requires forall i :: 0 <= i < |names| ==> StartsWith(names[i], Type2Prefix)
    requires |names| > 0 && RepoNameOf(names[0]).Some? && TempName(RepoNameOf(names[0]).value) in r
    requires forall i :: 0 <= i < |names[1..]| ==>
      RepoNameOf(names[1..][i]).Some? && TempName(RepoNameOf(names[1..][i]).value) in r
    ensures forall i :: 0 <= i < |names| ==> RepoNameOf(names[i]).Some? && TempName(RepoNameOf(names[i]).value) in r
  {
    assert forall i :: 1 <= i < |names| ==> names[i] == names[1..][i - 1];
  }

  /** Writing one temporary file and then more: everything that was there
      stays, and whatever changed is a temporary file. */
  lemma TempFileWritten(out: Dir, name: string, node: Node, r: Dir)
    requires StartsWith(name, TempTag)
    requires forall e :: e in out[name := node] ==> e in r
    requires forall e :: e in r && (e !in out[name := node] || r[e] != out[name := node][e]) ==> StartsWith(e, TempTag)
    ensures name in r
    ensures forall e :: e in out ==> e in r
    ensures forall e :: e in r && (e !in out || r[e] != out[e]) ==> StartsWith(e, TempTag)
  {
    var next := out[name := node];
    assert name in next;
    forall e | e in r && (e !in out || r[e] != out[e])
      ensures StartsWith(e, TempTag)
    {
      if e != name {
        assert e in next <==> e in out;
        assert e in out ==> next[e] == out[e];
      }
    }
  }

  /** The counts `TempDict` holds after the loop has collapsed `names` in
      order, starting from `prev`; `None` once a report fails or is not a
      file of `dir`. */
  function Carried(dir: Dir, names: seq<string>, prev: Option<map<string, nat>>): Option<map<string, nat>>
    decreases |names|
  {
    if |names| == 0 then prev
    else if names[0] !in dir || !dir[names[0]].File? then None
    else
      match CollapseReport(dir[names[0]].text, prev)
      case Err(_) => None
      case Ok(sums) => Carried(dir, names[1..], Some(sums))
  }

  /** Different repositories get different temporary files. */
  lemma TempNameInjective(a: string, b: string)
    ensures TempName(a) == TempName(b) ==> a == b
  {
    if TempName(a) == TempName(b) {
      JoinTwo(TempTag, a + ".txt", '_');
      JoinTwo(TempTag, b + ".txt", '_');
      var n := |TempTag| + 1;
      assert TempName(a)[n..|TempName(a)| - 4] == a;
      assert TempName(b)[n..|TempName(b)| - 4] == b;
    }
  }

  /** One turn of the loop: the first report collapses, its temporary file
      is written, and the rest of the reports follow. */
  lemma TempFilesStep(dir: Dir, names: seq<string>, prev: Option<map<string, nat>>, out: Dir)
    requires forall i :: 0 <= i < |names| ==> names[i] in dir && dir[names[i]].File? && StartsWith(names[i], Type2Prefix)
    requires TempFiles(dir, names, prev, out).Ok? && |names| > 0
    ensures CollapseReport(dir[names[0]].text, prev).Ok?
    ensures RepoNameOf(names[0]).Some?
    ensures var sums := CollapseReport(dir[names[0]].text, prev).value;
      var next := out[TempName(RepoNameOf(names[0]).value) := File(Writers.CountsReport(sums))];
      && TempFiles(dir, names, prev, out) == TempFiles(dir, names[1..], Some(sums), next)
  {
  }

  /** What `TempDict` carries past the first `i` reports, the first of
      which collapses: what the rest carry from its counts. */
  lemma CarriedShift(dir: Dir, names: seq<string>, prev: Option<map<string, nat>>, i: int)
    requires forall i :: 0 <= i < |names| ==> names[i] in dir && dir[names[i]].File?
    requires 0 < i <= |names| && CollapseReport(dir[names[0]].text, prev).Ok?
    ensures Carried(dir, names[..i], prev)
      == Carried(dir, names[1..][..i - 1], Some(CollapseReport(dir[names[0]].text, prev).value))
  {
    var before := names[..i];
    assert forall j :: 0 <= j < |before| ==> before[j] == names[j];
    assert before[1..] == names[1..][..i - 1];
  }

  /** A run of collapses that carries counts past the `i`-th report got them
      from collapsing that report with what the reports before it carried. */
  lemma {:induction false} CarriedLast(dir: Dir, names: seq<string>, prev: Option<map<string, nat>>, i: int)
    requires forall i :: 0 <= i < |names| ==> names[i] in dir && dir[names[i]].File?
    requires 0 <= i < |names|
    requires Carried(dir, names[..i + 1], prev).Some?
    ensures CollapseReport(dir[names[i]].text, Carried(dir, names[..i], prev))
      == Ok(Carried(dir, names[..i + 1], prev).value)
    decreases i
  {
    assert names[..i + 1][0] == names[0];
    var first := CollapseReport(dir[names[0]].text, prev);
    assert first.Ok?;
    if i == 0 {
      assert names[..1][1..] == [] && names[..0] == [];
    } else {
      var rest := names[1..];
      assert forall j :: 0 <= j < |rest| ==> rest[j] == names[j + 1];
      CarriedShift(dir, names, prev, i + 1);
      CarriedShift(dir, names, prev, i);
      CarriedLast(dir, rest, Some(first.value), i - 1);
    }
  }

  /** The reports after the first are reports of the folder too. */
  lemma TailReports(dir: Dir, names: seq<string>)
    requires forall i :: 0 <= i < |names| ==> names[i] in dir && dir[names[i]].File? && StartsWith(names[i], Type2Prefix)
    requires |names| > 0
    ensures var rest := names[1..];
      forall k :: 0 <= k < |rest| ==> rest[k] in dir && dir[rest[k]].File? && StartsWith(rest[k], Type2Prefix)
  {
    var rest := names[1..];
    assert forall k :: 0 <= k < |rest| ==> rest[k] == names[k + 1];
  }

  /** Dropping the first report keeps the reports after the `i`-th apart from
      `repo`, and moves the `i`-th one place forward. */
  lemma TailOthers(names: seq<string>, i: int, repo: Option<string>)
    requires 0 <= i < |names|
    requires forall j :: i < j < |names| ==> RepoNameOf(names[j]) != repo
    ensures var rest := names[1..];
      && (i > 0 ==> rest[i - 1] == names[i])
      && (forall j :: i - 1 < j < |rest| ==> RepoNameOf(rest[j]) != repo)
  {
    var rest := names[1..];
    assert forall k :: 0 <= k < |rest| ==> rest[k] == names[k + 1];
  }

  /** A temporary file of a repository that none of `names` gives is left as
      it was. */
  lemma {:induction false} TempFilesKeeps(dir: Dir, names: seq<string>, prev: Option<map<string, nat>>, out: Dir, repo: string)
    requires forall i :: 0 <= i < |names| ==> names[i] in dir && dir[names[i]].File? && StartsWith(names[i], Type2Prefix)
    requires TempFiles(dir, names, prev, out).Ok?
    requires TempName(repo) in out
    requires forall j :: 0 <= j < |names| ==> RepoNameOf(names[j]) != Some(repo)
    ensures TempFiles(dir, names, prev, out).value[TempName(repo)] == out[TempName(repo)]
    decreases |names|, 1
  {
    if |names| > 0 {
      TempFilesStep(dir, names, prev, out);
      var sums := CollapseReport(dir[names[0]].text, prev).value;
      var first := RepoNameOf(names[0]).value;
      var next := out[TempName(first) := File(Writers.CountsReport(sums))];
      TempFileUntouched(out, first, File(Writers.CountsReport(sums)), repo);
      TailReports(dir, names);
      TailOthers(names, 0, Some(repo));
      TempFilesKeepsTail(dir, names, names[1..], Some(sums), next, repo);
    }
  }

  /** The step of `TempFilesKeeps` past the first report. */
  lemma {:induction false} TempFilesKeepsTail(dir: Dir, names: seq<string>, rest: seq<string>, prev: Option<map<string, nat>>, out: Dir, repo: string)
    requires 0 < |names| && rest == names[1..]
    requires forall i :: 0 <= i < |rest| ==> rest[i] in dir && dir[rest[i]].File? && StartsWith(rest[i], Type2Prefix)
    requires TempFiles(dir, rest, prev, out).Ok?
    requires TempName(repo) in out
    requires forall j :: 0 <= j < |rest| ==> RepoNameOf(rest[j]) != Some(repo)
    ensures TempFiles(dir, rest, prev, out).value[TempName(repo)] == out[TempName(repo)]
    decreases |names|, 0
  {
    TempFilesKeeps(dir, rest, prev, out, repo);
  }

  /** Writing one repository's temporary file leaves another's as it was. */
  lemma TempFileUntouched(out: Dir, written: string, node: Node, repo: string)
    requires TempName(repo) in out && written != repo
    ensures var next := out[TempName(written) := node];
      TempName(repo) in next && next[TempName(repo)] == out[TempName(repo)]
  {
    TempNameInjective(written, repo);
  }

  /** The first report's temporary file, when no later report names the same
      repository, holds the first report's counts. */
  lemma TempFileOfFirst(dir: Dir, names: seq<string>, prev: Option<map<string, nat>>, out: Dir)
    requires forall i :: 0 <= i < |names| ==> names[i] in dir && dir[names[i]].File? && StartsWith(names[i], Type2Prefix)
    requires TempFiles(dir, names, prev, out).Ok? && |names| > 0
    requires forall j :: 0 < j < |names| ==> RepoNameOf(names[j]) != RepoNameOf(names[0])
    ensures var after := Carried(dir, names[..1], prev);
      after.Some? && RepoNameOf(names[0]).Some?
      && TempFiles(dir, names, prev, out).value[TempName(RepoNameOf(names[0]).value)]
         == File(Writers.CountsReport(after.value))
  {
    TempFilesStep(dir, names, prev, out);
    var sums := CollapseReport(dir[names[0]].text, prev).value;
    var first := RepoNameOf(names[0]).value;
    var next := out[TempName(first) := File(Writers.CountsReport(sums))];
    var rest := names[1..];
    assert TempFiles(dir, rest, Some(sums), next).value[TempName(first)] == next[TempName(first)] by {
      TailReports(dir, names);
      TailOthers(names, 0, Some(first));
      TempFilesKeeps(dir, rest, Some(sums), next, first);
    }
    assert next[TempName(first)] == File(Writers.CountsReport(sums));
    CarriedOne(dir, names, prev);
  }

  /** Past one report that collapses, `TempDict` carries its counts. */
  lemma CarriedOne(dir: Dir, names: seq<string>, prev: Option<map<string, nat>>)
    requires forall i :: 0 <= i < |names| ==> names[i] in dir && dir[names[i]].File?
    requires |names| > 0 && CollapseReport(dir[names[0]].text, prev).Ok?
    ensures Carried(dir, names[..1], prev) == Some(CollapseReport(dir[names[0]].text, prev).value)
  {
    assert names[..1][0] == names[0] && names[..1][1..] == [];
  }

  /** The temporary file of the `i`-th report, when no later report names the
      same repository, holds that report's counts, collapsed with whatever
      `TempDict` carried over from the reports before it. */
  lemma {:induction false} TempFileOf(dir: Dir, names: seq<string>, prev: Option<map<string, nat>>, out: Dir, i: int)
    requires forall i :: 0 <= i < |names| ==> names[i] in dir && dir[names[i]].File? && StartsWith(names[i], Type2Prefix)
    requires TempFiles(dir, names, prev, out).Ok?
    requires 0 <= i < |names|
    requires forall j :: i < j < |names| ==> RepoNameOf(names[j]) != RepoNameOf(names[i])
    ensures var after := Carried(dir, names[..i + 1], prev);
      after.Some? && RepoNameOf(names[i]).Some?
      && TempFiles(dir, names, prev, out).value[TempName(RepoNameOf(names[i]).value)]
         == File(Writers.CountsReport(after.value))
    decreases |names|, 2
  {
    if i == 0 {
      TempFileOfFirst(dir, names, prev, out);
    } else {
      TempFileOfLater(dir, names, prev, out, i);
    }
  }

  /** A later report's temporary file is the one the reports after the
      first leave. */
  lemma {:induction false} TempFileOfLater(dir: Dir, names: seq<string>, prev: Option<map<string, nat>>, out: Dir, i: int)
    requires forall i :: 0 <= i < |names| ==> names[i] in dir && dir[names[i]].File? && StartsWith(names[i], Type2Prefix)
    requires TempFiles(dir, names, prev, out).Ok?
    requires 0 < i < |names|
    requires forall j :: i < j < |names| ==> RepoNameOf(names[j]) != RepoNameOf(names[i])
    ensures var after := Carried(dir, names[..i + 1], prev);
      after.Some? && RepoNameOf(names[i]).Some?
      && TempFiles(dir, names, prev, out).value[TempName(RepoNameOf(names[i]).value)]
         == File(Writers.CountsReport(after.value))
    decreases |names|, 1
  {
    TempFilesStep(dir, names, prev, out);
    var sums := CollapseReport(dir[names[0]].text, prev).value;
    var next := out[TempName(RepoNameOf(names[0]).value) := File(Writers.CountsReport(sums))];
    TailReports(dir, names);
    TempFileOfRest(dir, names, names[1..], sums, next, i);
    CarriedShift(dir, names, prev, i + 1);
  }

  /** The `i`-th report's temporary file as the reports after the first
      leave it, starting from the first report's counts. */
  lemma {:induction false} TempFileOfRest(dir: Dir, names: seq<string>, rest: seq<string>, sums: map<string, nat>, next: Dir, i: int)
    requires 0 < i < |names| && rest == names[1..]
    requires forall k :: 0 <= k < |rest| ==> rest[k] in dir && dir[rest[k]].File? && StartsWith(rest[k], Type2Prefix)
    requires TempFiles(dir, rest, Some(sums), next).Ok?
    requires forall j :: i < j < |names| ==> RepoNameOf(names[j]) != RepoNameOf(names[i])
    ensures var after := Carried(dir, rest[..i], Some(sums));
      after.Some? && RepoNameOf(names[i]).Some?
      && TempFiles(dir, rest, Some(sums), next).value[TempName(RepoNameOf(names[i]).value)]
         == File(Writers.CountsReport(after.value))
    decreases |names|, 0
  {
    TailOthers(names, i, RepoNameOf(names[i]));
    TempFileOf(dir, rest, Some(sums), next, i - 1);
  }

  /** One turn of the loop of `TempFiles`. */
  lemma TempFilesCons(dir: Dir, names: seq<string>, prev: Option<map<string, nat>>, out: Dir)
    requires forall i :: 0 <= i < |names| ==> names[i] in dir && dir[names[i]].File? && StartsWith(names[i], Type2Prefix)
    requires |names| > 0
    ensures var rest := names[1..];
      (forall i :: 0 <= i < |rest| ==> rest[i] in dir && dir[rest[i]].File? && StartsWith(rest[i], Type2Prefix))
    ensures var c := CollapseReport(dir[names[0]].text, prev);
      && (c.Err? ==> TempFiles(dir, names, prev, out) == Err(c.error))
      && (c.Ok? ==>
            var w := WriteTemp(names[0], c.value, out);
            && (w.Err? ==> TempFiles(dir, names, prev, out) == Err(w.error))
            && (w.Ok? ==> TempFiles(dir, names, prev, out) == TempFiles(dir, names[1..], Some(c.value), w.value)))
  {
    TailReports(dir, names);
  }

  /** Files of a second folder that agree with the first on the reports make
      the same temporary files from them; and a file that is not a temporary
      file, written beforehand, is carried through unchanged. */
  lemma {:induction false} TempFilesFrame(d1: Dir, d2: Dir, names: seq<string>, prev: Option<map<string, nat>>, out: Dir, x: string, n: Node)
    requires forall i :: 0 <= i < |names| ==> names[i] in d1 && d1[names[i]].File? && StartsWith(names[i], Type2Prefix)
    requires forall i :: 0 <= i < |names| ==> names[i] in d2 && d2[names[i]] == d1[names[i]]
    requires !StartsWith(x, TempTag)
    ensures var a := TempFiles(d1, names, prev, out);
      TempFiles(d2, names, prev, out[x := n]) == (if a.Ok? then Ok(a.value[x := n]) else a)
    decreases |names|, 1
  {
    if |names| > 0 {
      TempFilesCons(d1, names, prev, out);
      TempFilesCons(d2, names, prev, out[x := n]);
      var c := CollapseReport(d1[names[0]].text, prev);
      if c.Ok? && RepoNameOf(names[0]).Some? {
        var temp := TempName(RepoNameOf(names[0]).value);
        var f := File(Writers.CountsReport(c.value));
        WritesCommute(out, x, n, temp, f);
        TempFilesFrameRest(d1, d2, names, names[1..], c.value, out[temp := f], x, n);
      }
    }
  }

  /** The step of `TempFilesFrame` past the first report. */
  lemma {:induction false} TempFilesFrameRest(d1: Dir, d2: Dir, names: seq<string>, rest: seq<string>, sums: map<string, nat>, next: Dir, x: string, n: Node)
    requires 0 < |names| && rest == names[1..]
    requires forall i :: 0 <= i < |names| ==> names[i] in d1 && d1[names[i]].File? && StartsWith(names[i], Type2Prefix)
    requires forall i :: 0 <= i < |names| ==> names[i] in d2 && d2[names[i]] == d1[names[i]]
    requires !StartsWith(x, TempTag)
    ensures forall i :: 0 <= i < |rest| ==> rest[i] in d1 && d1[rest[i]].File? && StartsWith(rest[i], Type2Prefix)
    ensures forall i :: 0 <= i < |rest| ==> rest[i] in d2 && d2[rest[i]] == d1[rest[i]]
    ensures var a := TempFiles(d1, rest, Some(sums), next);
      TempFiles(d2, rest, Some(sums), next[x := n]) == (if a.Ok? then Ok(a.value[x := n]) else a)
    decreases |names|, 0
  {
    assert forall i :: 0 <= i < |rest| ==> rest[i] == names[i + 1];
    TempFilesFrame(d1, d2, rest, Some(sums), next, x, n);
  }

  /** Writing a temporary file and another file, in either order, gives the
      same folder. */
  lemma WritesCommute(out: Dir, x: string, n: Node, temp: string, f: Node)
    requires !StartsWith(x, TempTag) && StartsWith(temp, TempTag)
    ensures out[x := n][temp := f] == out[temp := f][x := n]
  {
  }

  /** A file that is neither a type-2 report nor a temporary file, written
      before the temporary files are made, is carried through them, and the
      temporary files are made as they would have been without it. */
  lemma TempFolderFrame(dir: Dir, x: string, n: Node)
    requires !StartsWith(x, Type2Prefix) && !StartsWith(x, TempTag)
    ensures var a := TempFolder(dir);
      TempFolder(dir[x := n]) == (if a.Ok? then Ok(a.value[x := n]) else a)
  {
    var names := MatchingFiles(dir, Type2Prefix);
    MatchingFilesFrame(dir, x, n, Type2Prefix);
    TempFilesFrame(dir, dir[x := n], names, None, dir, x, n);
  }

  /** The temporary files for a folder: every type-2 report, collapsed. */
  function TempFolder(dir: Dir): Result<Dir>
  {
    TempFiles(dir, MatchingFiles(dir, Type2Prefix), None, dir)
  }

  /** A folder whose only type-2 report is writer 2's table for `lists` gets
      one temporary file, holding the per-capability file counts in writer
      1's format. */
  lemma TempFolderOfOneReport(dir: Dir, repo: string, lists: map<string, seq<string>>)
    requires IsWord(repo)
    requires |lists| > 0
    requires forall f :: f in lists ==> CleanField(f) && f != ""
    requires forall f, c :: f in lists && c in lists[f] ==> CleanField(c)
    requires SampleColumn !in Writers.Capabilities(lists)
    requires Type2Prefix + "_" + repo + ".txt" in dir
    requires dir[Type2Prefix + "_" + repo + ".txt"] == File(Writers.IncidenceReport(lists))
    requires forall e :: e in dir && e != Type2Prefix + "_" + repo + ".txt" ==> !StartsWith(e, Type2Prefix)
    ensures TempFolder(dir)
      == Ok(dir[TempName(repo) := File(Writers.CountsReport(CapabilityCounts(lists)))])
  {
    var name := Type2Prefix + "_" + repo + ".txt";
    RepoNameOfReport(repo, "");
    assert name + "" == name;
    var names := MatchingFiles(dir, Type2Prefix);
    assert forall e :: e in names <==> e == name;
    SortSetOf(set e | e in dir && dir[e].File? && StartsWith(e, Type2Prefix), [name]);
    assert names == [name];
    CollapseIncidence(lists, None);
    var counts := CapabilityCounts(lists);
    assert CollapseReport(dir[name].text, None) == Ok(counts);
    var next := dir[TempName(repo) := File(Writers.CountsReport(counts))];
    assert WriteTemp(name, counts, dir) == Ok(next);
    assert TempFiles(dir, names[1..], Some(counts), next) == Ok(next);
  }

  /** A folder's temporary file for a repository whose writer-2 report is
      the table for `lists`, and which no report later in name order also
      names, holds the per-capability file counts in writer 1's format,
      whatever other reports the folder holds. */
  lemma TempFileOfIncidenceReport(dir: Dir, repo: string, lists: map<string, seq<string>>)
    requires IsWord(repo)
    requires |lists| > 0
    requires forall f :: f in lists ==> CleanField(f) && f != ""
    requires forall f, c :: f in lists && c in lists[f] ==> CleanField(c)
    requires SampleColumn !in Writers.Capabilities(lists)
    requires Type2Prefix + "_" + repo + ".txt" in dir
    requires dir[Type2Prefix + "_" + repo + ".txt"] == File(Writers.IncidenceReport(lists))
    requires forall e :: (e in dir && dir[e].File? && StartsWith(e, Type2Prefix)
                          && Less(Type2Prefix + "_" + repo + ".txt", e)) ==> RepoNameOf(e) != Some(repo)
    requires TempFolder(dir).Ok?
    ensures TempName(repo) in TempFolder(dir).value
    ensures TempFolder(dir).value[TempName(repo)] == File(Writers.CountsReport(CapabilityCounts(lists)))
  {
    var name := Type2Prefix + "_" + repo + ".txt";
    RepoNameOfReport(repo, "");
    assert name + "" == name;
    var i := TempFolderFileOf(dir, name, repo);
    var names := MatchingFiles(dir, Type2Prefix);
    MatchingPrefix(dir, Type2Prefix, i);
    CarriedLast(dir, names, None, i);
    CollapseIncidence(lists, Carried(dir, names[..i], None));
  }

  /** The place of a type-2 report among the folder's type-2 reports, when no
      report after it in name order names the same repository. */
  lemma LaterReports(dir: Dir, name: string, repo: string) returns (i: int)
    requires name in dir && dir[name].File? && StartsWith(name, Type2Prefix)
    requires RepoNameOf(name) == Some(repo)
    requires forall e :: (e in dir && dir[e].File? && StartsWith(e, Type2Prefix) && Less(name, e))
                         ==> RepoNameOf(e) != Some(repo)
    ensures var names := MatchingFiles(dir, Type2Prefix);
      && 0 <= i < |names| && names[i] == name
      && forall j :: i < j < |names| ==> RepoNameOf(names[j]) != RepoNameOf(names[i])
  {
    var names := MatchingFiles(dir, Type2Prefix);
    assert name in names;
    i :| 0 <= i < |names| && names[i] == name;
    assert forall j :: i < j < |names| ==> Less(names[i], names[j]);
  }

  /** In a folder, the temporary file of the `i`-th type-2 report, when no
      report after it in name order shares its repository, holds the counts
      `TempDict` holds once the loop has collapsed that report. */
  lemma TempFolderFileOf(dir: Dir, name: string, repo: string) returns (i: int)
    requires name in dir && dir[name].File? && StartsWith(name, Type2Prefix)
    requires RepoNameOf(name) == Some(repo)
    requires forall e :: (e in dir && dir[e].File? && StartsWith(e, Type2Prefix) && Less(name, e))
                         ==> RepoNameOf(e) != Some(repo)
    requires TempFolder(dir).Ok?
    ensures 0 <= i < |MatchingFiles(dir, Type2Prefix)| && MatchingFiles(dir, Type2Prefix)[i] == name
    ensures var upto := MatchingFiles(dir, Type2Prefix)[..i + 1];
      && (forall j :: 0 <= j < |upto| ==> upto[j] in dir && dir[upto[j]].File?)
      && Carried(dir, upto, None).Some?
      && TempName(repo) in TempFolder(dir).value
      && TempFolder(dir).value[TempName(repo)] == File(Writers.CountsReport(Carried(dir, upto, None).value))
  {
    var names := MatchingFiles(dir, Type2Prefix);
    i := LaterReports(dir, name, repo);
    MatchingPrefix(dir, Type2Prefix, i + 1);
    TempFileOf(dir, names, None, dir, i);
  }


  /** The matching files, and the first `i` of them, are files of the folder
      whose names start with the prefix. */
  lemma MatchingPrefix(dir: Dir, prefix: string, i: int)
    requires 0 <= i <= |MatchingFiles(dir, prefix)|
    ensures var all := MatchingFiles(dir, prefix);
      forall j :: 0 <= j < |all| ==> all[j] in dir && dir[all[j]].File? && StartsWith(all[j], prefix)
    ensures var names := MatchingFiles(dir, prefix)[..i];
      forall j :: 0 <= j < |names| ==> names[j] in dir && dir[names[j]].File?
  {
    var all := MatchingFiles(dir, prefix);
    var names := all[..i];
    forall j | 0 <= j < |all|
      ensures all[j] in dir && dir[all[j]].File? && StartsWith(all[j], prefix)
    {
      assert all[j] in all;
    }
    forall j | 0 <= j < |names|
      ensures names[j] in dir && dir[names[j]].File?
    {
      assert names[j] == all[j];
    }
  }
}
