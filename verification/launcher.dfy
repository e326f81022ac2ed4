/** The launcher's per-repository bookkeeping: one counter per outcome, updated
    once per analysed file from the analysis tool's exit code and standard
    error, then written as a two-column summary report. */
module Launcher {
  import opened Wrappers
  import opened Strings
  import opened Decimal
  import opened Totals
  import opened Tsv
  import opened Paths

  const Successful: string := "Successful"
  const TimedOut: string := "Timed Out"
  const Other: string := "Other"

  /** Wall-clock limit handed to `timeout`, in minutes. */
  const TimeOutMinutes: nat := 5
  /** Input format passed to the tool when the configuration names none. */
  const DefaultFormat: string := "elf"
  /** The tag that opens an error line of the tool's standard error. */
  const ErrorTag: string := "ERROR:capa:"

  /** Outcome label -> number of files of the repository with that outcome. */
  type Summary = map<string, nat>

  /** The three labels every summary holds from the start. */
  predicate HasFixedKeys(s: Summary)
  {
    Successful in s && TimedOut in s && Other in s
  }

  /** The summary of a repository before any file is analysed. */
  function InitSummary(): (s: Summary)
    ensures s.Keys == {Successful, TimedOut, Other}
    ensures forall k :: k in s ==> s[k] == 0
    ensures HasFixedKeys(s) && Total(s) == 0
  {
    TotalOfZeros(Successful, TimedOut, Other);
    map[Successful := 0, TimedOut := 0, Other := 0]
  }

  /** What running the tool on one file produced: the shell's exit status and
      the captured standard error, or an exception raised before or while
      launching it (a configuration without the tool's path, say). */
  datatype Run = Exited(code: int, stderr: string) | Raised

  /** Whether the pattern `^ERROR:capa:\s(.*)\.$` (multi-line mode) matches at
      the start of `line`, and the captured group if so. `next` is the line
      after `line`, if any: `\s` may match the line break itself, and the group
      then lies on the following line. */
  function LineMessage(line: string, next: Option<string>): (r: Option<string>)
    requires '\n' !in line
    ensures r.Some? ==> '\n' !in r.value
  {
    if |line| >= |ErrorTag| + 2 && line[..|ErrorTag|] == ErrorTag && IsSpace(line[|ErrorTag|])
       && line[|line| - 1] == '.'
    then
      var m := line[|ErrorTag| + 1..|line| - 1];
      assert forall i :: 0 <= i < |m| ==> m[i] == line[|ErrorTag| + 1 + i];
      Some(m)
    else if line == ErrorTag && next.Some? && |next.value| > 0 && next.value[|next.value| - 1] == '.'
            && '\n' !in next.value
    then
      var m := next.value[..|next.value| - 1];
      assert forall i :: 0 <= i < |m| ==> m[i] == next.value[i];
      Some(m)
    else None
  }

  /** The group of the first (leftmost) match over a list of lines. */
  function FirstMessage(lines: seq<string>): (r: Option<string>)
    requires forall i :: 0 <= i < |lines| ==> '\n' !in lines[i]
    ensures r.Some? <==> exists i :: 0 <= i < |lines| && LineMessage(lines[i], NextLine(lines, i)).Some?
    ensures r.Some? ==> exists i :: 0 <= i < |lines| && LineMessage(lines[i], NextLine(lines, i)) == r
                          && forall j :: 0 <= j < i ==> LineMessage(lines[j], NextLine(lines, j)).None?
    decreases |lines|
  {
    if |lines| == 0 then None
    else
      var here := LineMessage(lines[0], NextLine(lines, 0));
      if here.Some? then here
      else
        var rest := FirstMessage(lines[1..]);
        assert forall i :: 0 <= i < |lines| - 1 ==> NextLine(lines[1..], i) == NextLine(lines, i + 1);
        rest
  }

  function NextLine(lines: seq<string>, i: int): Option<string>
    requires 0 <= i < |lines|
  {
    if i + 1 < |lines| then Some(lines[i + 1]) else None
  }

  /** `re.findall(...)[0]` on the tool's standard error, or `None` when nothing matches. */
  function LogMessage(stderr: string): (r: Option<string>)
    ensures r.Some? ==> '\n' !in r.value
  {
    FirstMessage(Split(stderr, '\n'))
  }

  /** A standard error whose first line is `ERROR:capa: <msg>.` is booked under `<msg>`,
      whatever follows. */
  lemma LogMessageOfFirstLine(msg: string, rest: string)
    requires '\n' !in msg
    ensures LogMessage(ErrorTag + " " + msg + ".\n" + rest) == Some(msg)
  {
    var line := ErrorTag + " " + msg + ".";
    var stderr := line + "\n" + rest;
    assert stderr == ErrorTag + " " + msg + ".\n" + rest;
    var lines := Split(stderr, '\n');
    SplitFirst(stderr, '\n');
    assert '\n' !in line;
    assert stderr[..|line|] == line && stderr[|line|] == '\n';
    assert lines[0] == line;
    assert line[..|ErrorTag|] == ErrorTag && line[|ErrorTag|] == ' ';
    assert line[|ErrorTag| + 1..|line| - 1] == msg;
  }

  /** The counter a run of the tool is booked under. */
  function OutcomeKey(run: Run): string
  {
    match run
    case Raised => Other
    case Exited(code, stderr) =>
      if code == 0 then Successful
      else if code == 124 then TimedOut
      else if code == 255 then
        match LogMessage(stderr)
        case Some(m) => m
        case None => Other
      else Other
  }

  /** The bookkeeping for one analysed file. */
  function RecordRun(s: Summary, run: Run): (s': Summary)
    requires HasFixedKeys(s)
    ensures HasFixedKeys(s')
    ensures run.Exited? && run.code == 0 ==> s' == s[Successful := s[Successful] + 1]
    ensures run.Exited? && run.code == 124 ==> s' == s[TimedOut := s[TimedOut] + 1]
    ensures run.Exited? && run.code == 255 && LogMessage(run.stderr).Some? ==>
              var m := LogMessage(run.stderr).value;
              s'.Keys == s.Keys + {m} && s'[m] == Get(s, m) + 1
              && forall k :: k in s && k != m ==> s'[k] == s[k]
    ensures (run.Raised? || run.code !in {0, 124, 255}
             || (run.code == 255 && LogMessage(run.stderr).None?)) ==> s' == s[Other := s[Other] + 1]
  {
    Bump(s, OutcomeKey(run))
  }

  /** Each file adds exactly one to exactly one counter. */
  lemma RecordRunTotal(s: Summary, run: Run)
    requires HasFixedKeys(s)
    ensures Total(RecordRun(s, run)) == Total(s) + 1
  {
    BumpTotal(s, OutcomeKey(run));
  }

  /** The summary of a repository whose files ran with the given outcomes, in listing order. */
  function RepositorySummary(runs: seq<Run>): (s: Summary)
    ensures HasFixedKeys(s)
    decreases |runs|
  {
    if |runs| == 0 then InitSummary()
    else RecordRun(RepositorySummary(runs[..|runs| - 1]), runs[|runs| - 1])
  }

  /** After a repository the counters add up to the number of files iterated. */
  lemma {:induction false} RepositorySummaryTotal(runs: seq<Run>)
    ensures Total(RepositorySummary(runs)) == |runs|
    decreases |runs|
  {
    if |runs| > 0 {
      RepositorySummaryTotal(runs[..|runs| - 1]);
      RecordRunTotal(RepositorySummary(runs[..|runs| - 1]), runs[|runs| - 1]);
    }
  }

  /** Row order of a summary: `Successful` first, `Other` last, every other
      label sorted in between. */
  function PinnedOrder(keys: set<string>): (r: seq<string>)
    ensures |r| >= 2 && r[0] == Successful && r[|r| - 1] == Other
    ensures StrictlySorted(r[1..|r| - 1])
    ensures forall k :: k in r <==> k in keys || k == Successful || k == Other
    ensures forall i, j :: 0 <= i < j < |r| ==> r[i] != r[j]
  {
    var middle := SortSet(keys - {Successful, Other});
    var r := [Successful] + middle + [Other];
    assert r[1..|r| - 1] == middle;
    BracketedDistinct(Successful, middle, Other);
    r
  }

  /** A strictly sorted sequence between two further distinct labels has no repeats. */
  lemma BracketedDistinct(first: string, middle: seq<string>, last: string)
    requires StrictlySorted(middle) && first !in middle && last !in middle && first != last
    ensures var r := [first] + middle + [last];
      forall i, j :: 0 <= i < j < |r| ==> r[i] != r[j]
  {
    var r := [first] + middle + [last];
    forall i, j | 0 <= i < j < |r|
      ensures r[i] != r[j]
    {
      if 0 < i && j < |r| - 1 {
        assert r[i] == middle[i - 1] && r[j] == middle[j - 1];
        assert Less(middle[i - 1], middle[j - 1]);
        LessIrreflexive(r[i]);
      } else if i == 0 && j < |r| - 1 {
        assert r[j] == middle[j - 1];
      } else if 0 < i {
        assert r[i] == middle[i - 1];
      }
    }
  }

  /** The summary report's text: one `label\tcount` line per label in pinned order. */
  function SummaryReport(s: Summary): string
    requires HasFixedKeys(s)
  {
    PinnedOrderOfSummary(s);
    RenderPairs(PinnedOrder(s.Keys), s)
  }

  /** For a summary holding the fixed keys, the pinned order lists exactly its keys. */
  lemma PinnedOrderOfSummary(s: Summary)
    requires HasFixedKeys(s)
    ensures var order := PinnedOrder(s.Keys);
      (forall i :: 0 <= i < |order| ==> order[i] in s) && (forall k :: k in order <==> k in s)
  {
    var order := PinnedOrder(s.Keys);
    forall i | 0 <= i < |order|
      ensures order[i] in s
    {
      assert order[i] in order;
    }
  }

  /** Reading a summary report back as the merger does gives every counter,
      spelled in decimal, once each. */
  lemma SummaryReportReadBack(s: Summary)
    requires HasFixedKeys(s)
    requires forall k :: k in s ==> CleanField(k)
    ensures RowsToDict(ReadRows(SummaryReport(s))) == Ok(DecimalMap(s))
  {
    var order := PinnedOrder(s.Keys);
    PinnedOrderOfSummary(s);
    ReadBackPairs(order, s);
    DecimalTextOfAllKeys(order, s);
  }

  /** What the launcher reads from the configuration's `CapaTool` entry. */
  datatype CapaTool = CapaTool(fullPath: string, format: Option<string>)

  /** The command list run (joined with spaces, through the shell) for one file of a repository. */
  function LinuxCmd(tool: CapaTool, repoPath: string, reportRepoPath: string, fileName: string): seq<string>
  {
    ["timeout", NatToDecimal(TimeOutMinutes) + "m"]
    + [tool.fullPath, "-j", "-f", FormatOf(tool)]
    + [PathJoin(repoPath, fileName), ">", PathJoin(reportRepoPath, SplitExt(fileName).0 + ".json")]
  }

  /** `ConfigDict['CapaTool'].get('Format', 'elf')` */
  function FormatOf(tool: CapaTool): string
  {
    match tool.format
    case Some(f) => f
    case None => DefaultFormat
  }

  /** The command limits the run to five minutes, asks for JSON output in the
      configured format (ELF unless stated), reads the file from the repository
      and redirects into a file named after the input with its last extension
      replaced by `.json`. */
  lemma LinuxCmdShape(tool: CapaTool, repoPath: string, reportRepoPath: string, fileName: string)
    requires '/' !in fileName
    ensures var cmd := LinuxCmd(tool, repoPath, reportRepoPath, fileName);
      && |cmd| == 9
      && cmd[0] == "timeout" && cmd[1] == "5m"
      && cmd[2] == tool.fullPath && cmd[3] == "-j" && cmd[4] == "-f"
      && (tool.format.None? ==> cmd[5] == "elf")
      && (tool.format.Some? ==> cmd[5] == tool.format.value)
      && BaseName(cmd[6]) == fileName && cmd[7] == ">"
      && BaseName(cmd[8]) == SplitExt(fileName).0 + ".json"
  {
    var root := SplitExt(fileName).0;
    var cmd := LinuxCmd(tool, repoPath, reportRepoPath, fileName);
    TimeOutText();
    assert cmd[1] == "5m";
    RootOfPlainName(fileName);
    assert '/' !in root + ".json";
    BaseNameOfJoin(repoPath, fileName);
    BaseNameOfJoin(reportRepoPath, root + ".json");
  }

  lemma TimeOutText()
    ensures NatToDecimal(TimeOutMinutes) + "m" == "5m"
  {
    assert NatToDecimal(5) == [DigitChar(5)];
    assert DigitChar(5) == '5';
  }
}
