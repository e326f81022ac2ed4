/** The tab-separated report format: `key\tvalue` lines as the report writers
    emit them, and `csv.reader(..., delimiter='\t')` followed by `dict(rows)` as
    the merger reads them back. */
module Tsv {
  import opened Wrappers
  import opened Strings
  import opened Decimal

  type Row = seq<string>

  /** A field that the csv module reads back verbatim: no delimiter, no line
      break and no quote character. */
  predicate CleanField(s: string)
  {
    '\t' !in s && '\n' !in s && '\r' !in s && '"' !in s
  }

  /** Text made of the given lines, each terminated by `\n`. */
  function Unlines(lines: seq<string>): string
    decreases |lines|
  {
    if |lines| == 0 then "" else lines[0] + "\n" + Unlines(lines[1..])
  }

  /** The lines of a text; a final `\n` ends the last line rather than starting an empty one. */
  function Lines(text: string): (ls: seq<string>)
    ensures forall i :: 0 <= i < |ls| ==> '\n' !in ls[i]
  {
    var parts := Split(text, '\n');
    if parts[|parts| - 1] == "" then parts[..|parts| - 1] else parts
  }

  /** The rows `csv.reader` yields: an empty line is an empty row, any other
      line is split at every tab. */
  function ReadRows(text: string): (rows: seq<Row>)
    ensures |rows| == |Lines(text)|
  {
    var ls := Lines(text);
    seq(|ls|, i requires 0 <= i < |ls| => if ls[i] == "" then [] else Split(ls[i], '\t'))
  }

  /** `dict(rows)`: every row must be a pair, later pairs overwrite earlier ones. */
  function RowsToDict(rows: seq<Row>): (r: Result<map<string, string>>)
    ensures r.Ok? <==> forall i :: 0 <= i < |rows| ==> |rows[i]| == 2
    ensures r.Ok? ==> r.value.Keys == set i | 0 <= i < |rows| :: rows[i][0]
    ensures r.Ok? && |rows| > 0 ==> r.value[rows[|rows| - 1][0]] == rows[|rows| - 1][1]
    decreases |rows|
  {
    if |rows| == 0 then Ok(map[])
    else
      var last := rows[|rows| - 1];
      match RowsToDict(rows[..|rows| - 1])
      case Err(e) => Err(e)
      case Ok(d) =>
        if |last| == 2 then
          assert forall i :: 0 <= i < |rows| - 1 ==> rows[..|rows| - 1][i] == rows[i];
          Ok(d[last[0] := last[1]])
        else Err("ValueError: dictionary update sequence element has wrong length; 2 is required")
  }

  /** A key keeps the value of its last pair: any pair that no later pair
      overrides is in the dictionary. */
  lemma {:induction false} RowsToDictLastWins(rows: seq<Row>, i: int)
    requires RowsToDict(rows).Ok? && 0 <= i < |rows|
    requires forall j :: i < j < |rows| ==> rows[j][0] != rows[i][0]
    ensures RowsToDict(rows).value[rows[i][0]] == rows[i][1]
    decreases |rows|
  {
    if i < |rows| - 1 {
      var init := rows[..|rows| - 1];
      assert forall j :: 0 <= j < |init| ==> init[j] == rows[j];
      assert RowsToDict(init).Ok?;
      RowsToDictLastWins(init, i);
    }
  }

  /** The line `key\tvalue` of a report. */
  function PairLine(key: string, value: string): string
  {
    key + "\t" + value
  }

  /** One line per key, in the given order, each the key and its count. */
  function PairLines(keys: seq<string>, m: map<string, nat>): (ls: seq<string>)
    requires forall i :: 0 <= i < |keys| ==> keys[i] in m
    ensures |ls| == |keys|
    ensures forall i :: 0 <= i < |keys| ==> ls[i] == PairLine(keys[i], NatToDecimal(m[keys[i]]))
  {
    seq(|keys|, i requires 0 <= i < |keys| => PairLine(keys[i], NatToDecimal(m[keys[i]])))
  }

  /** The listed keys of a counter map with their counts spelled in decimal:
      what reading a two-column report back gives. */
  function DecimalText(keys: seq<string>, m: map<string, nat>): map<string, string>
    requires forall i :: 0 <= i < |keys| ==> keys[i] in m
  {
    map k | k in keys :: NatToDecimal(m[k])
  }

  /** Every key of a counter map with its count spelled in decimal. */
  function DecimalMap(m: map<string, nat>): (d: map<string, string>)
    ensures d.Keys == m.Keys
  {
    map k | k in m :: NatToDecimal(m[k])
  }

  lemma DecimalTextOfAllKeys(keys: seq<string>, m: map<string, nat>)
    requires forall k :: k in keys <==> k in m
    ensures DecimalText(keys, m) == DecimalMap(m)
  {
  }

  /** The text of a two-column report listing `m` in the order `keys`. */
  function RenderPairs(keys: seq<string>, m: map<string, nat>): string
    requires forall i :: 0 <= i < |keys| ==> keys[i] in m
  {
    Unlines(PairLines(keys, m))
  }

  lemma {:induction false} UnlinesAsJoin(lines: seq<string>)
    ensures Unlines(lines) == Join(lines + [""], '\n')
    decreases |lines|
  {
    if |lines| > 0 {
      UnlinesAsJoin(lines[1..]);
      assert (lines + [""])[1..] == lines[1..] + [""];
    }
  }

  /** Reading the lines back from text written one line per entry gives the entries. */
  lemma LinesUnlines(lines: seq<string>)
    requires forall i :: 0 <= i < |lines| ==> '\n' !in lines[i]
    ensures Lines(Unlines(lines)) == lines
  {
    UnlinesAsJoin(lines);
    SplitJoin(lines + [""], '\n');
    assert (lines + [""])[..|lines|] == lines;
  }

  lemma ReadPairLine(key: string, value: string)
    requires CleanField(key) && CleanField(value)
    ensures PairLine(key, value) != ""
    ensures Split(PairLine(key, value), '\t') == [key, value]
  {
    assert Join([key, value], '\t') == PairLine(key, value);
    SplitJoin([key, value], '\t');
  }

  /** A report written by `RenderPairs` and read back as the merger reads it
      yields every listed key with its count spelled in decimal. */
  lemma ReadBackPairs(keys: seq<string>, m: map<string, nat>)
    requires forall i :: 0 <= i < |keys| ==> keys[i] in m && CleanField(keys[i])
    ensures RowsToDict(ReadRows(RenderPairs(keys, m)))
         == Ok(DecimalText(keys, m))
  {
    var rows := ReadRows(RenderPairs(keys, m));
    ReadRowsOfPairs(keys, m);
    DictOfPairRows(keys, m, rows);
  }

  lemma ReadRowsOfPairs(keys: seq<string>, m: map<string, nat>)
    requires forall i :: 0 <= i < |keys| ==> keys[i] in m && CleanField(keys[i])
    ensures |ReadRows(RenderPairs(keys, m))| == |keys|
    ensures forall i :: 0 <= i < |keys| ==>
              ReadRows(RenderPairs(keys, m))[i] == [keys[i], NatToDecimal(m[keys[i]])]
  {
    var ls := PairLines(keys, m);
    forall i | 0 <= i < |ls|
      ensures '\n' !in ls[i]
    {
      ReadPairLine(keys[i], NatToDecimal(m[keys[i]]));
    }
    LinesUnlines(ls);
    var rows := ReadRows(RenderPairs(keys, m));
    forall i | 0 <= i < |rows|
      ensures rows[i] == [keys[i], NatToDecimal(m[keys[i]])]
    {
      ReadPairLine(keys[i], NatToDecimal(m[keys[i]]));
    }
  }

  lemma {:induction false} DictOfPairRows(keys: seq<string>, m: map<string, nat>, rows: seq<Row>)
    requires forall i :: 0 <= i < |keys| ==> keys[i] in m
    requires |rows| == |keys|
    requires forall i :: 0 <= i < |keys| ==> rows[i] == [keys[i], NatToDecimal(m[keys[i]])]
    ensures RowsToDict(rows) == Ok(DecimalText(keys, m))
    decreases |keys|
  {
    if |keys| > 0 {
      var n := |keys| - 1;
      var init := rows[..n];
      assert rows[..|rows| - 1] == init;
      DictOfPairRows(keys[..n], m, init);
      var text := NatToDecimal(m[keys[n]]);
      assert rows[n] == [keys[n], text];
      RowsToDictStep(rows);
      DecimalTextStep(keys, m);
    }
  }

  /** `dict` over one more pair: the pairs before it, then that pair. */
  lemma RowsToDictStep(rows: seq<Row>)
    requires |rows| > 0 && RowsToDict(rows[..|rows| - 1]).Ok? && |rows[|rows| - 1]| == 2
    ensures var last := rows[|rows| - 1];
      RowsToDict(rows) == Ok(RowsToDict(rows[..|rows| - 1]).value[last[0] := last[1]])
  {
  }

  /** The decimal texts of one more key. */
  lemma DecimalTextStep(keys: seq<string>, m: map<string, nat>)
    requires forall i :: 0 <= i < |keys| ==> keys[i] in m
    requires |keys| > 0
    ensures var n := |keys| - 1;
      DecimalText(keys, m) == DecimalText(keys[..n], m)[keys[n] := NatToDecimal(m[keys[n]])]
  {
    var n := |keys| - 1;
    assert keys == keys[..n] + [keys[n]];
  }

  /** A row the csv module reads back as it was written: clean fields, and not
      a single empty field, which would make an empty line. */
  predicate CleanRow(row: Row)
  {
    |row| > 0 && row != [""] && forall k :: 0 <= k < |row| ==> CleanField(row[k])
  }

  /** Rows written as tab-joined lines. */
  function RenderRows(rows: seq<Row>): string
  {
    Unlines(seq(|rows|, i requires 0 <= i < |rows| => Join(rows[i], '\t')))
  }

  lemma JoinedRow(row: Row)
    requires CleanRow(row)
    ensures '\n' !in Join(row, '\t') && Join(row, '\t') != ""
    ensures Split(Join(row, '\t'), '\t') == row
  {
    JoinAvoids(row, '\t', '\n');
    SplitJoin(row, '\t');
    if |row| > 1 {
      assert Join(row, '\t') == row[0] + ['\t'] + Join(row[1..], '\t');
    }
  }

  /** Reading back rendered rows gives the rows. */
  lemma ReadRenderedRows(rows: seq<Row>)
    requires forall i :: 0 <= i < |rows| ==> CleanRow(rows[i])
    ensures ReadRows(RenderRows(rows)) == rows
  {
    var ls := seq(|rows|, i requires 0 <= i < |rows| => Join(rows[i], '\t'));
    forall i | 0 <= i < |rows|
      ensures '\n' !in ls[i] && ls[i] != "" && Split(ls[i], '\t') == rows[i]
    {
      JoinedRow(rows[i]);
    }
    LinesUnlines(ls);
  }
}
