# capa-tool-launcher in Dafny

A model of the core of capa-tool-launcher, a batch driver for the capa
static-analysis tool, with proofs about it. The tool has three steps:

- **Launcher** (`capatoolauncher.py`). It runs capa on every file of every
  configured repository, five minutes at most per file. It books each outcome in a
  per-repository counter map: `Successful`, `Timed Out`, `Other`, or the
  first `ERROR:capa:` message of the tool's standard error. It writes that map as a
  tab-separated summary report, `Successful` first, `Other` last and the
  other labels sorted in between. It names its results folder after a
  run identifier derived from `time.ctime()`.
- **Post-processing** (`DataPostProcessingCls`). It reads the capa JSON
  results of every repository folder and applies one of two extraction
  strategies:
  - type 1 counts namespaced rules per top-level category;
  - type 2 lists each file's namespaces.

  It then writes one report per repository:
  - type 1 writes `category\tcount` lines;
  - type 2 writes a `Sample` × capability incidence matrix of `0`/`1`.
- **Merger** (`ComparePostProcessingReportsCls`). For each report kind
  (summary, type 1, type 2), it reads every matching report of the results
  folder as a dictionary and pivots them into one
  `<kind>_All_Repositories.csv` table. The columns are the files, the rows are
  the descriptions, and a missing value is written as `0`. Type-2 matrices are first
  collapsed into temporary `Temp_File_<repo>.txt` files holding, for each
  capability, the number of files that have it. Without the results folder the
  merger stops at its assertion and writes nothing (`Merge.CompareReports`). Each
  kind reads the folder as it was before the merge: the merged reports of earlier kinds
  change nothing a later kind reads (`Merge.MergeSeesFolderBefore`).

## How the model is organised

| file | module | what it holds |
|---|---|---|
| `wrappers.dfy` | `Wrappers` | `Option`, `Result` |
| `strings.dfy` | `Strings` | Python's string order, `sorted` over a set, `split`/`join` |
| `decimal.dfy` | `Decimal` | `str(n)` and `int(s)` on naturals |
| `totals.dfy` | `Totals` | the sum of a counter map, and the `d[k] += 1` idiom |
| `tsv.dfy` | `Tsv` | tab-separated lines as `csv.reader` reads them, and `dict(rows)` |
| `paths.dfy` | `Paths` | `os.path.join`, `basename`, `splitext` |
| `folder.dfy` | `Folder` | a results folder as a map from names to files; name prefixes |
| `launcher.dfy` | `Launcher` | the summary bookkeeping, the log pattern, the command line |
| `runid.dfy` | `RunId` | the test-execution identifier |
| `extraction.dfy` | `Extraction` | the two extraction strategies |
| `writers.dfy` | `Writers` | the two report writers |
| `postprocess.dfy` | `PostProcessing` | input checks, report names, the per-repository loop |
| `collapse.dfy` | `Collapse` | the type-2 collapse into temporary files |
| `merge.dfy` | `Merge` | the data dictionary, descriptions, the merged table, the merge driver |

The model has no I/O:
- A folder is a `map<string, Node>`, where a file's node holds the text a text-mode read returns.
- A decoded capa result is a sequence of rules. Each rule has a namespace, has no namespace, or lacks `meta`, which makes the extraction raise.
- An exception in the source is an `Err` or a `None` in the model. It carries the Python exception text where the control flow depends on it.
- The clock is a parameter. A run of the tool is a parameter too: its exit status and standard error, or an exception raised while launching it.

Three behaviours of the code that a reader might expect to be otherwise:
- Strategy 2 gives a file whose result has no namespaced rule no row at
  all (`Extraction.CapabilityListsSpec`, `Extraction.CapabilityListsExample`).
  It does not give such a file a row of zeros.
- A report kind with no matching file still gets a merged table. For the summary kind,
  that table still has the `Successful` and `Other` rows (`Merge.EmptyMerge`).
- An exception while merging one kind ends the whole merge. The code has no
  per-kind exception handler, so the later kinds get no report (`Merge.StopAtFailure`,
  `Merge.CompareReportsStopsAt`).

## Model

| member | source | states |
|---|---|---|
| Launcher.InitSummary | capatoolauncher.py:65-68 | a fresh summary holds exactly `Successful`, `Timed Out` and `Other`, all zero, totalling zero |
| Launcher.RecordRun | capatoolauncher.py:92-109 | exit 0 adds one to `Successful`, 124 to `Timed Out`; 255 with a logged message adds one to that message's counter (created at 1) and leaves every other counter alone; any other status, a launch exception, or 255 without a message adds one to `Other`; the three fixed labels are always kept |
| Launcher.RecordRunTotal | capatoolauncher.py:92-109 | every analysed file adds exactly one to the sum of the counters |
| Launcher.RepositorySummaryTotal | capatoolauncher.py:78-109 | after a repository, the counters add up to the number of files listed |
| Launcher.FirstMessage | capatoolauncher.py:123-131 | a message is found exactly when some line matches `^ERROR:capa:\s(.*)\.$`; the one found is the group of the first matching line |
| Launcher.LogMessageOfFirstLine | capatoolauncher.py:118-134 | a standard error whose first line is `ERROR:capa: <msg>.` yields `<msg>` as the key to book, whatever lines follow |
| Launcher.PinnedOrder | capatoolauncher.py:44 | rows start with `Successful`, end with `Other`, list every other label once in ascending order between, and list every label of the summary |
| Launcher.PinnedOrderOfSummary | capatoolauncher.py:44-45 | for a summary with the fixed labels, the row order names exactly the summary's labels, so every lookup succeeds |
| Launcher.SummaryReportReadBack | capatoolauncher.py:38-45 | the summary report, read back as the merger reads it, gives every counter once, spelled in decimal |
| Launcher.LinuxCmdShape | capatoolauncher.py:53-63 | the command is `timeout 5m <tool> -j -f <format> <input> > <output>`; the format defaults to `elf`; the input's base name is the file; the output's base name is the file with its extension replaced by `.json` |
| RunId.TestExecIdIsPlain | capatoolauncher.py:147-149 | whatever the clock says, the identifier holds no whitespace, no colon and no upper-case letter |
| RunId.TestExecIdOfCTime | capatoolauncher.py:149 | for any `ctime` string, the identifier is the lower-cased month, the unpadded day, and the hour, minute and second, joined by `_`; the weekday and year are dropped, and the double space before a one-digit day does not shift the fields |
| RunId.TestExecIdExample | capatoolauncher.py:149 | `Mon Jan  5 10:20:30 2021` gives `jan_5_10_20_30` |
| Decimal.ParseNatToDecimal | modules/capapostprocesslib.py:79 | `int(str(n)) == n`: a count written by a report reads back as itself |
| Tsv.RowsToDict | modules/capapostprocesslib.py:48 | `dict(rows)` succeeds exactly when every row is a pair; its keys are exactly the rows' first fields |
| Tsv.RowsToDictLastWins | modules/capapostprocesslib.py:48 | a key repeated over several rows takes the value of its last row |
| Tsv.ReadRenderedRows | modules/capapostprocesslib.py:45-48 | rows with clean fields, written tab-joined one per line, read back as the same rows |
| Paths.SplitExtSpec | capatoolauncher.py:62 | the extension split off is empty, or it is a `.` followed by no further `.` or `/`; it is non-empty exactly when the base name has a dot after a non-dot |
| Paths.BaseNameOfJoin | modules/capapostprocesslib.py:171 | a name without `/` joined under any folder is the base name of the result |
| Extraction.Processed | modules/capapostprocesslib.py:137-142 | the rules handled are a prefix of the result's rules, ending just before the first rule without `meta`, whose KeyError ends the file's extraction |
| Extraction.NamespacesOfProcessed | modules/capapostprocesslib.py:137-142 | a namespace is extracted exactly when a handled rule carries it |
| Extraction.Category | modules/capapostprocesslib.py:140 | the category is the namespace's text before its first `/`, or all of it when there is none |
| Extraction.AddCategoriesCounts | modules/capapostprocesslib.py:134-142 | strategy 1 adds to each category the number of handled namespaces in it, and adds a key exactly for the categories that occur |
| Extraction.AddCategoriesTotal | modules/capapostprocesslib.py:134-142 | strategy 1 raises the total by exactly the number of handled namespaced rules |
| Extraction.CategoryCountsTotal | modules/capapostprocesslib.py:173-196 | a repository's category counts add up to the number of handled namespaced rules over its files, and no category holds `/` |
| Extraction.AddNamespacesAppends | modules/capapostprocesslib.py:144-152 | strategy 2 appends the handled namespaces to the file's list in rule order, and creates the list only when there is one |
| Extraction.CapabilityListsSpec | modules/capapostprocesslib.py:144-152 | over a folder, exactly the files with handled namespaced rules get a key, whose list is their namespaces in rule order; there are no other keys |
| Extraction.RepoACategoryCounts | modules/capapostprocesslib.py:138-142 | a namespace seen in two files counts twice in its category, and a rule without a namespace counts for nothing |
| Extraction.NothingExtracted | modules/capapostprocesslib.py:180-196 | files with no handled namespaced rule leave both accumulators empty |
| Writers.CountsReportLines | modules/capapostprocesslib.py:154-158 | writer 1 writes one `label\tcount` line per label, in ascending label order, and nothing for an empty map |
| Writers.CountsReportReadBack | modules/capapostprocesslib.py:154-158 | reading a type-1 report back as the merger reads it gives every count, spelled in decimal |
| Writers.IncidenceHeader | modules/capapostprocesslib.py:164-165 | the header is `Sample` followed by every namespace extracted from any file, once each, ascending |
| Writers.IncidenceFiles | modules/capapostprocesslib.py:166-168 | the rows name every processed file once, in ascending order |
| Writers.IncidenceCell | modules/capapostprocesslib.py:167-168 | a cell is `1` when its file's list holds its column's capability and `0` otherwise |
| Writers.RecoverCapabilities | modules/capapostprocesslib.py:164-168 | the capabilities marked `1` in a file's row are exactly the distinct namespaces of its list |
| Writers.IncidenceTableOfSets | modules/capapostprocesslib.py:164-168 | the matrix depends on each list only through its set of namespaces, so repeats and order do not matter |
| Writers.IncidenceTableRectangular | modules/capapostprocesslib.py:165-168 | every row is as wide as the header |
| Writers.IncidenceReportReadBack | modules/capapostprocesslib.py:160-168 | with clean names, reading a type-2 report back gives the matrix again |
| Writers.IncidenceOfOne | modules/capapostprocesslib.py:160-168 | one file with one namespace gives the matrix `Sample, c / f, 1` |
| PostProcessing.StrategyOf | modules/capapostprocesslib.py:201-205 | only the types 1 and 2 are accepted, 1 selecting category counts |
| PostProcessing.RepoFolders | modules/capapostprocesslib.py:214-215 | the repository folders are exactly the sub-folders of the results folder, in ascending order |
| PostProcessing.RepoPathsOrder | modules/capapostprocesslib.py:214-215 | sorting the folders' full paths gives them in ascending order of their names |
| PostProcessing.ReportFileNameOf | modules/capapostprocesslib.py:170-171 | a repository folder's report is `Postprocessing_Type_<n>_<folder>.txt` |
| PostProcessing.Execute | modules/capapostprocesslib.py:201-217 | the step fails exactly when the type is unsupported, the results folder is missing or it has no repository folder; otherwise there is one report per repository folder |
| PostProcessing.ExecuteReports | modules/capapostprocesslib.py:173-199 | the `i`-th report, in folder order, is named after the `i`-th folder and holds what that folder's own files give |
| PostProcessing.ExecuteDistinctNames | modules/capapostprocesslib.py:170-176 | no two reports of a step share a name, so none overwrites another |
| PostProcessing.FailedRepositoryReport | modules/capapostprocesslib.py:180-199 | a repository none of whose files is usable still gets a report: empty for type 1, the bare `Sample` header for type 2 |
| Folder.MatchingFiles | modules/capapostprocesslib.py:42-43 | the names listed are exactly the files whose name starts with the prefix, each once, in ascending order |
| Merge.DictsOf | modules/capapostprocesslib.py:42-48 | reading the listed files succeeds exactly when each reads as pairs; then each file maps to its own dictionary and there is no other key |
| Merge.DataDictionary | modules/capapostprocesslib.py:37-48 | the data of a kind is, for every file starting with the prefix, its own dictionary; it fails exactly when one of them does not read as pairs |
| Merge.DescriptionsSpec | modules/capapostprocesslib.py:102-109 | a description is listed exactly when some file has it (for summaries, `Successful` and `Other` too), each once; summary rows start with `Successful` and end with `Other` (even when no file has them), with the rest ascending between; other kinds are all ascending |
| Merge.SummaryDescriptionsExample | modules/capapostprocesslib.py:106-107 | the summary labels `Successful, Timed Out, Other, Foo` come out as `Successful, Foo, Timed Out, Other` |
| Merge.MergedTableHeader | modules/capapostprocesslib.py:55-59 | the header is `Description` and then every file once, ascending; row `i` starts with the `i`-th description |
| Merge.MergedTableRectangular | modules/capapostprocesslib.py:55-63 | every row has one column per file plus the description |
| Merge.MergedCell | modules/capapostprocesslib.py:59-63 | each cell holds its column's file's value for the row's description, or `0` when that file lacks it |
| Merge.EmptyMerge | modules/capapostprocesslib.py:50-63 | with no file of a kind the table has no file column; summary tables still have the rows `Successful` and `Other`, and other kinds have no row at all |
| Merge.MergedName | modules/capapostprocesslib.py:53 | the merged report of a kind is `<prefix>_All_Repositories.csv` |
| Merge.MergeKindCell | modules/capapostprocesslib.py:25-35 | every column of a kind's merged table is a file of the folder the kind is read from (the reports themselves for summary and type 1, the temporary files for type 2) that reads as pairs, and every cell is that file's value for the row's description, or `0` |
| Merge.StopAtFailure | modules/capapostprocesslib.py:21-35 | kinds are merged in turn; every report kept is a successful kind's, in order, and the first failure ends the merge and is reported |
| Merge.CompareReportsAllRead | modules/capapostprocesslib.py:21-35 | when every kind's data reads, the merge fails nowhere and writes three reports, summary, type 1 and type 2 in that order, each named `<prefix>_All_Repositories.csv` and holding the pivoted table of its kind's data |
| Merge.CompareReportsStopsAt | modules/capapostprocesslib.py:21-35 | when kind `k` is the first whose data does not read, exactly the reports of the kinds before it are written, and the merge ends with kind `k`'s error |
| Merge.MergedNamesApart | modules/capapostprocesslib.py:118-122 | no merged report starts with the prefix of a kind merged after it, nor with the temporary-file tag, so one merge does not feed the next kind |
| Merge.DataDictionaryFrame | modules/capapostprocesslib.py:37-48 | writing a file whose name does not start with a kind's prefix leaves that kind's data as it was |
| Merge.MergeKindAfterWrite | modules/capapostprocesslib.py:21-35 | writing one kind's merged report, whatever it holds, leaves the merged table (or failure) of every later kind as it was |
| Merge.MergeSeesFolderBefore | modules/capapostprocesslib.py:21-35 | after the merged reports of the earlier kinds are written, each kind still merges exactly what it would from the folder as it was before the merge |
| Merge.MergedNameMatchesOwnKind | modules/capapostprocesslib.py:42-53 | a merged report starts with its own kind's prefix, so a later merge over the same folder picks it up as one more report |
| Merge.ReadDictOneField | modules/capapostprocesslib.py:45-48 | a text whose first line is not empty and holds no tab does not read as pairs |
| Merge.RemergeStops | modules/capapostprocesslib.py:21-48 | a second merge over a folder still holding the first merge's comma-separated summary report writes no report and ends with the summary kind's error |
| Collapse.ColumnSum | modules/capapostprocesslib.py:79 | a column's sum exists exactly when every data row's value in that column is a decimal number |
| Collapse.ColumnSumAppend | modules/capapostprocesslib.py:75-79 | one more data row adds its cell to the column's running total, and a cell that is not a number spoils the total |
| Collapse.ColumnCount | modules/capapostprocesslib.py:77-79 | summing a capability's column of an incidence matrix counts the files whose list holds that capability |
| Collapse.CollapseSums | modules/capapostprocesslib.py:74-79 | a report whose first data row fits under the header, and whose columns other than `Sample` sum to given totals, collapses to exactly those totals |
| Collapse.CollapseNoData | modules/capapostprocesslib.py:75-80 | a header-only report repeats the previous report's totals, and fails when it is the first one |
| Collapse.CollapseLongFirstRow | modules/capapostprocesslib.py:74-77 | a first data row longer than the header makes the collapse fail |
| Collapse.CapabilityCounts | modules/capapostprocesslib.py:77-79 | the collapse's keys are the extracted capabilities, each with the number of files that have it |
| Collapse.CollapseIncidence | modules/capapostprocesslib.py:65-90 | collapsing a type-2 report written by writer 2 counts, for each capability, the files that have it |
| Collapse.RepoNameOf | modules/capapostprocesslib.py:68 | a repository name is found only when the name continues `_<word>.txt`, case-insensitively, with a word of letters, digits and `_` |
| Collapse.RepoNameOfReport | modules/capapostprocesslib.py:68-86 | for a report named after a word-only repository, the name found is that repository |
| Collapse.RepoNameOfHyphen | modules/capapostprocesslib.py:68-86 | a repository named with a hyphen yields no name, so its temporary file cannot be written |
| Collapse.TempName | modules/capapostprocesslib.py:86 | a temporary file's name starts with `Temp_File` |
| Collapse.TempFiles | modules/capapostprocesslib.py:70-90 | on success nothing in the folder is lost, only temporary files change, and every report has a repository name whose temporary file exists |
| Collapse.TempFolderOfOneReport | modules/capapostprocesslib.py:65-90 | a folder whose single type-2 report is writer 2's non-empty table, for a repository named by a word and with clean names and no capability called `Sample`, has `Temp_File_<repo>.txt` written or replaced, holding each capability's file count, and nothing else changed |
| Collapse.TempFilesKeeps | modules/capapostprocesslib.py:70-90 | the temporary file of a repository that none of the reports names keeps its content |
| Collapse.TempFileOf | modules/capapostprocesslib.py:70-90 | when no later report names the same repository, the `i`-th report's temporary file holds, in writer 1's format, the totals `TempDict` carries once reports `0..i` have been collapsed in turn (so a header-only report repeats the totals carried from the report before it) |
| Collapse.TempFolderFileOf | modules/capapostprocesslib.py:65-90 | in a folder, the temporary file of a repository holds the totals carried once its last report in name order has been collapsed |
| Collapse.TempFileOfIncidenceReport | modules/capapostprocesslib.py:65-90 | when a repository named by a word has writer 2's non-empty table, with clean names and no capability called `Sample`, as its last type-2 report, its temporary file holds each capability's file count, whatever other reports the folder holds |
| Collapse.TempFolderFrame | modules/capapostprocesslib.py:65-90 | a file that is neither a type-2 report nor a temporary file, written beforehand, is carried through the temporary files unchanged, and they come out as without it |

## Left out

- Output to the console, logging, argument parsing and the YAML configuration
  are left out. The configuration's `CapaTool` entry is a parameter
  (`Launcher.CapaTool`).
- The launcher's process and file-system actions are left out: creating folders, running the shell
  command, and `timeout` itself. A run of the tool is an input to
  `Launcher.RecordRun`: either an exit status with the standard error, or a raised exception.
- JSON decoding is left out: a result file is either undecodable or a decoded sequence of rules.
  The order of rules is the order of the decoded `rules` mapping.
- Text is modelled after newline translation. The CSV dialect's quoting is not modelled: fields are
  assumed free of quotes, tabs and line breaks (`Tsv.CleanField`), which is what
  the read-back lemmas require. The merged `.csv` tables are modelled as rows,
  not as their comma-separated `csv.DictWriter` text with `\r\n` line ends.
- The model gives only the outcome (`Ok` or `Err`), not which Python exception class is raised first.
- `\w` is taken on ASCII only; `\s` is Python's full Unicode whitespace set (`Strings.IsSpace`). `re.I` case folding beyond ASCII is not modelled, and `str.lower()` is taken on ASCII letters only.
- `Decimal.ParseDecimal`: `int()` is modelled on plain digit strings only.
  Surrounding whitespace, a sign or underscores give an error in the model, which
  Python would accept.
- `Collapse.CollapseIncidence`: its requires excludes a namespace spelled `Sample`, file names or namespaces
  holding a tab, line break or quote, and an empty table. With those, the written matrix does not read back
  as written (a `Sample` capability is dropped from the totals), and the property is not claimed.
- `Collapse.TempFolderOfOneReport`: the same exclusions as `Collapse.CollapseIncidence`, and a repository
  name that is a word (`Collapse.RepoNameOfHyphen` covers the other case).
- `Collapse.TempFileOfIncidenceReport`: the same exclusions as `Collapse.TempFolderOfOneReport`.
- The launcher's repository loop and the run identifier's use as a folder
  name are left out. Only the identifier's derivation (`RunId`) and one
  repository's bookkeeping (`Launcher.RepositorySummary`) are modelled.
- `DeleteTempFiles` is left out: removing the temporary files after the type-2 merge has
  no effect on any table the model produces.
- `RunConfigFileConsistencyChecks` (the configuration file's extension and
  existence) is left out, being configuration-file I/O.
- Writing over an entry of the results folder that is not a file (a folder
  named like a temporary file) is not modelled. `open(..., 'w')` would raise there,
  whereas `Collapse.WriteTemp` replaces the entry.
- A namespace that is not a string is not modelled: every namespace is text.
  In the source, `split` would raise for strategy 1, while strategy 2 would
  append the value.
- The text of the merged `.csv` reports is not modelled. A second merge over the same folder
  therefore does not see their comma-separated lines directly: `Merge.RemergeStops` states
  what happens for any such text. The earlier summary report starts with the summary prefix
  (`Merge.MergedNameMatchesOwnKind`), and its lines hold no tab, so `dict()` raises at once and
  the second merge writes nothing.
- The exception handler around writing the summary report is left out, being file I/O.
