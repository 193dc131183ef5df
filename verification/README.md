# OpenForBC-Benchmark in Dafny

This project models the core of OpenForBC-Benchmark, a tool that runs GPU and
CPU benchmarks on the host and collects their statistics. The model covers:

- **Definitions.** JSON definitions of commands, benchmarks, presets and stat
  matchers, their `deserialize`/`serialize` pair, and `shlex.split` for
  command strings (`Commands`, `Definitions`, `JsonValue`, `JsonFiles`,
  `Shlex`).
- **Processes.** The process descriptor `Runnable` and the `Popen` arguments it
  turns into, including the `PATH` extension (`Runnables`).
- **The run engine** of the `openforbc_benchmark` CLI (`Engine`):
  - the loop that drains a task's stdout and stderr into its log file;
  - the abort rules of `_run_task_or_err`;
  - the order in which setup tasks, preset tasks and stats reads happen;
  - the stats table.
- **Search and suites.** Benchmark and suite search along the `:`-separated
  search path (`Discovery`). The suite CLI: running a suite, its per-run
  tables, preset selection, and the file-name loop of the definition tool
  (`SuiteCli`).
- **Phoronix test profiles.** The `name-version` index of profiles, with
  existence checks and install paths (`PhoronixIndex`).
- **The Unigine Heaven package downloader** (`PhoronixDownload`):
  - platform filtering;
  - keeping or deleting a file already on disk;
  - mirror URLs tried in order, each download verified;
  - the copy loop and the progress bar.
- **The Blender launcher setup** (`BlenderSetup`): the archive chosen for the
  host system, the progress hook, and the path-traversal guard on tar members.
  It relies on `posixpath` `join`, `normpath`, `abspath` and `commonprefix`
  (`PosixPath`).
- **The legacy Typer CLI** (`LegacyCli`): `make-suite`, the settings handling
  of `run-benchmark`, and the `list-logs` table.
- **The TensorFlow benchmark base class** (`TfBase`):
  - device selection;
  - the stats file name;
  - inference batching;
  - the inference loop's pass count;
  - the test mode.

Python values are modelled as follows:

- **Exceptions.** A raised exception is a value of `Exceptions.Raised`. An
  operation that can raise returns a `Result`.
- **JSON documents** are a `Json` datatype. Objects are maps from keys to
  values.
- **Dictionaries whose order is observable** (the stats tables, the Phoronix
  index) are association lists in insertion order (`Dicts`).
- **The outside world becomes parameters:** the file system, process creation,
  the network, the clock and JSON-schema validation. They are passed as
  functions or as pre-computed sequences of events, for example the lines a
  process writes or the answers a user types.

## Model

| member | source | states |
|---|---|---|
| Commands.New | openforbc_benchmark/common.py:19-34 | a list command is kept as given; a string command succeeds exactly when `shlex.split` does, and then holds its words; env and workdir are stored unchanged |
| Commands.DecodeArg | openforbc_benchmark/common.py:21-31 | a JSON string becomes a string command; a list command is an array whose items are all strings, in order; anything else is refused with `IllTyped("command")` |
| Commands.DecodeOptString | openforbc_benchmark/common.py:23-34 | an optional string field accepts exactly `null` or a string, and refuses anything else with `IllTyped` naming the field |
| Commands.FromKeywords | openforbc_benchmark/common.py:19-41 | `cls(**json)` succeeds exactly when the keys are among the constructor's parameters, `command` is present and is a string that splits or a list of strings, and `env`/`workdir` have their types; an unknown key or a missing `command` raises `TypeError`; a string command holds its `shlex` words and a list is kept; a missing `env` is `{}` and a missing `workdir` is `None` |
| Commands.Deserialize | openforbc_benchmark/common.py:36-43 | a string is split as a command line; an object goes through the keyword constructor; anything that is neither string nor object fails the `assert` |
| Commands.KeywordStringAgrees | openforbc_benchmark/common.py:36-43 | `{"command": s}` and the bare string `s` deserialize to the same result |
| Commands.DeserializeCommands | openforbc_benchmark/common.py:45-49 | a non-list is wrapped in a one-element list; a list succeeds exactly when every element deserializes, and then gives the elements' commands in order |
| Commands.DeserializeAll | openforbc_benchmark/common.py:49 | the comprehension succeeds exactly when every element deserializes, one command per element |
| Commands.DeserializeAllFirstError | openforbc_benchmark/common.py:49 | a failing comprehension raises the error of its first failing element; all elements before it succeed |
| Commands.Serialize | openforbc_benchmark/json.py:18-21 | `__dict__` of a command is an object with exactly the keys `command`, `env`, `workdir` |
| Commands.RoundTrip | openforbc_benchmark/common.py:36-41 | deserializing a serialized command gives the same command back |
| Commands.ListNotResplit | tests/test_command.py:15-19 | an argument list with a space inside one word is not split again |
| Commands.StringIsSplit | openforbc_benchmark/common.py:28-29 | a command string without quotes or backslashes becomes the command of its whitespace-separated fields, with no environment and no working directory |
| Commands.EchoStringIsSplit | openforbc_benchmark/common.py:28-29 | `"/bin/echo Hello world"` becomes the three arguments `/bin/echo`, `Hello`, `world` |
| Shlex.Split | openforbc_benchmark/common.py:26-29 | `shlex.split` fails only with `ValueError` |
| Shlex.SplitPlainIsFields | openforbc_benchmark/common.py:29 | on text without quotes or backslashes, `shlex.split` is whitespace field splitting |
| Shlex.SplitJoinRoundTrip | openforbc_benchmark/common.py:29 | splitting words joined by single spaces gives the words back, when no word holds whitespace, a quote or a backslash |
| Shlex.UnclosedQuoteFails | openforbc_benchmark/common.py:29 | a trailing unmatched quote makes the split raise `ValueError("No closing quotation")` |
| Shlex.SplitEchoExample | openforbc_benchmark/common.py:28-29 | `"/bin/echo Hello world"` splits into three words |
| JsonValue.StringsRoundTrip | openforbc_benchmark/common.py:21 | a list of strings written as JSON reads back as the same list |
| JsonValue.StringMapRoundTrip | openforbc_benchmark/common.py:22 | a string-to-string dict written as JSON reads back as the same dict |
| JsonFiles.CommandFileRoundTrip | openforbc_benchmark/json.py:29-46 | a command written with `to_file` reads back equal with `from_file` |
| JsonFiles.StatFileRoundTrip | openforbc_benchmark/json.py:29-46 | a stat matcher written with `to_file` reads back equal with `from_file` |
| Definitions.DeserializeStat | openforbc_benchmark/benchmark.py:127-137 | `StatMatchInfo(**json)` succeeds exactly for an object with `regex` and no other key than `file`, a string `regex` and a `file` that is absent, `null` or a string; a missing `file` is `None`; an unknown key, a missing `regex` or a non-object raises `TypeError`; a mistyped field is refused with `IllTyped` naming it |
| Definitions.SerializeStat | openforbc_benchmark/json.py:18-21 | `__dict__` of a stat matcher has exactly the keys `regex` and `file` |
| Definitions.StatRoundTrip | openforbc_benchmark/benchmark.py:130-137 | deserializing a serialized stat matcher gives it back |
| Definitions.DecodeStats | openforbc_benchmark/benchmark.py:51-57 | a string, or an object with `command`, is a stats command and succeeds exactly when `Command.deserialize` does; any other object is a map whose entries all decode as stat matchers, key for key; a list holding `"command"` fails the `assert False` of `Command.deserialize` |
| Definitions.RequiredString | openforbc_benchmark/benchmark.py:59-61 | `json[key]` succeeds exactly when the key is present with a string; a missing key raises `KeyError(key)` |
| Definitions.OptionalCommands | openforbc_benchmark/benchmark.py:37-49 | an absent key gives `None`; a present key gives its command list, and fails exactly when that list fails |
| Definitions.DeserializeBenchmark | openforbc_benchmark/benchmark.py:33-67 | schema failure raises first; the definition is read exactly when the document is a valid object whose setup, run and cleanup commands and stats decode, with `run_command` and `stats` present, string `name` and `description`, and a boolean `virtualenv` if any; each field comes from its key; `virtualenv` holds exactly when the key is `true`; a missing `run_command` raises `KeyError` |
| Definitions.SerializeBenchmark | openforbc_benchmark/json.py:18-21 | `__dict__` of a benchmark uses the attribute names (`setup_commands`, `run_commands`, …) |
| Definitions.BenchmarkSerializeNotReadable | openforbc_benchmark/benchmark.py:25-43 | a serialized benchmark never deserializes, since `__dict__` has no `run_command` key |
| Definitions.NewPreset | openforbc_benchmark/benchmark.py:90-105 | `TypeError` exactly when both args and init commands are missing; string args are split, list args kept |
| Definitions.DecodePresetArgs | openforbc_benchmark/benchmark.py:99-100 | `null` means no args; any other value succeeds exactly when it decodes as a command argument, and then is that argument |
| Definitions.DeserializePreset | openforbc_benchmark/benchmark.py:107-124 | an object with neither `args` nor `init_command` raises `KeyError`; a preset is read exactly when the init and post commands decode, `args` is absent, `null`, a splittable string or a string list, and there is a non-null `args` or an `init_command`; a string `args` becomes its `shlex.split` words, a list is kept, and an absent or `null` one gives no args; init and post commands come from their keys; `args: null` without init commands raises `TypeError` |
| Runnables.FromArgs | openforbc_benchmark/utils.py:19-26 | a runnable built from arguments has no cwd, no env and an empty path list |
| Runnables.AbsEntries | openforbc_benchmark/utils.py:35 | each path entry is made absolute, in order |
| Runnables.IntoPopenArgs | openforbc_benchmark/utils.py:28-48 | a path list without `PATH` in the base env raises `KeyError("PATH")`; otherwise args and cwd pass through; env is `None` exactly when there is no path list and no env; it holds the base keys and the extra keys; the extras win; `PATH` is the absolute entries, then `:`, then the old value |
| Runnables.PopenPathOrder | openforbc_benchmark/utils.py:32-39 | read back as a `:` list, the new `PATH` is the absolute entries followed by the old entries |
| Discovery.Roots | openforbc_benchmark/cli/benchmark.py:187 | one root per search-path element, each element joined with the sub-directory |
| Discovery.Kept | openforbc_benchmark/cli/benchmark.py:189-190 | the names kept are the listing filtered by the test, in listing order and with their multiplicity |
| Discovery.BenchmarkSteps | openforbc_benchmark/cli/benchmark.py:182-195 | a root is reported as unlistable exactly when listing it fails |
| Discovery.BenchmarkStepsConcat | openforbc_benchmark/cli/benchmark.py:187-195 | the roots are walked in search-path order: the walk of two root lists is the first's walk followed by the second's |
| Discovery.BenchmarkStepsOneRoot | openforbc_benchmark/cli/benchmark.py:188-195 | an unlistable root gives its report; a listed root gives the definition files of the listing filtered by `exists`, in listing order |
| Discovery.BenchmarkRootEntries | openforbc_benchmark/cli/benchmark.py:189-193 | one root yields a definition file exactly when it belongs to a listed subdirectory that has one |
| Discovery.BenchmarkStepsEntries | openforbc_benchmark/cli/benchmark.py:182-195 | `<root>/<d>/benchmark.json` is yielded exactly when `d` is in the listing of some root and that file exists |
| Discovery.SuiteSteps | openforbc_benchmark/cli/suite.py:54-63 | a root is reported as unlistable exactly when listing it fails |
| Discovery.SuiteStepsConcat | openforbc_benchmark/cli/suite.py:60-63 | suite folders are walked in search-path order |
| Discovery.SuiteStepsOneRoot | openforbc_benchmark/cli/suite.py:61-63 | a listed folder gives the paths of the listing filtered by `isfile` and the `.json` suffix, in listing order |
| Discovery.SuiteRootEntries | openforbc_benchmark/cli/suite.py:61-63 | one folder yields a path exactly when it names a regular `.json` file of its listing |
| Discovery.SuiteStepsEntries | openforbc_benchmark/cli/suite.py:54-63 | `<root>/<f>` is yielded exactly when `f` is in the listing of some root, is a regular file and ends in `.json` |
| Discovery.FindBenchmark | openforbc_benchmark/cli/benchmark.py:198-200 | `None` exactly when every step is skipped; otherwise the first definition whose id matches, or the first loading error, with every earlier step skipped |
| Discovery.FindSuite | openforbc_benchmark/cli/suite.py:66-71 | `None` exactly when no suite name starts with the search string; otherwise the first match, or the first error, where a missing root raises |
| Engine.LogLine | openforbc_benchmark/cli/benchmark.py:169-174 | a logged stdout line is the line plus at most one newline, ends in a newline, and is unchanged when it already ends in one |
| Engine.LogLineIdempotent | openforbc_benchmark/cli/benchmark.py:169-174 | logging an already logged line changes nothing |
| Engine.RunClosesIff | openforbc_benchmark/cli/benchmark.py:156-165 | the drain loop ends exactly when every registered stream reaches end of file |
| Engine.RunLog | openforbc_benchmark/cli/benchmark.py:156-174 | the log gains exactly the stdout lines up to stdout's end of file; stderr lines are never logged |
| Engine.DrainLoop | openforbc_benchmark/cli/benchmark.py:156-174 | the loop logs the reference stdout log, and finishes exactly when both streams close |
| Engine.LogPath | openforbc_benchmark/cli/benchmark.py:117-120 | a relative identifier's log path lies under the log directory and ends in `<identifier>.log`; an absolute identifier escapes it |
| Engine.LogPathInjective | openforbc_benchmark/cli/benchmark.py:117-120 | different relative identifiers get different log files |
| Engine.SetupLogSeparate | openforbc_benchmark/cli/benchmark.py:72-92 | setup output and any preset's output never share a log file |
| Engine.Append | openforbc_benchmark/cli/benchmark.py:156 | opening with mode `a` appends to the file or creates it; other files are unchanged |
| Engine.MissingPathNeverStarts | openforbc_benchmark/cli/benchmark.py:126-131 | a task that needs a `PATH` the environment lacks never starts |
| Engine.RunTask | openforbc_benchmark/cli/benchmark.py:126-137 | a task is recorded; it succeeds exactly when it starts, drains and returns 0, and then its log is appended; `TaskError` exactly when it did not start; a failure exits 1 with a non-zero code or never ends |
| Engine.Attempted | openforbc_benchmark/cli/benchmark.py:72-92 | the tasks started are all of them, or those up to and including the first failure |
| Engine.RunTasks | openforbc_benchmark/cli/benchmark.py:72-92 | a task list succeeds exactly when every task does; stats are untouched; an error is a task fault |
| Engine.RunTasksTrace | openforbc_benchmark/cli/benchmark.py:72-92 | the recorded tasks are those attempted, in order |
| Engine.RunTasksLog | openforbc_benchmark/cli/benchmark.py:83-92 | a completed task list appends all its tasks' output to one log, in order |
| Engine.RunTasksFollowsPlan | openforbc_benchmark/cli/benchmark.py:72-92 | whatever happens, the trace is a prefix of the planned one; on success it is the whole plan |
| Engine.RunPresetStats | openforbc_benchmark/cli/benchmark.py:94-106 | a successful preset adds exactly its name to the stats, with the stats parsed from its log; keys stay unique; a decode failure names the preset |
| Engine.RunPresetSucceeds | openforbc_benchmark/cli/benchmark.py:80-106 | a preset succeeds exactly when every task succeeds, its log exists and its stats parse |
| Engine.RunPresetFollowsPlan | openforbc_benchmark/cli/benchmark.py:80-106 | a preset's trace is a prefix of its tasks followed by its stats read, and all of it on success |
| Engine.RunPresetsStats | openforbc_benchmark/cli/benchmark.py:80-108 | after all presets succeed, the stats keys are exactly the preset names, unique |
| Engine.RunPresetsFollowPlan | openforbc_benchmark/cli/benchmark.py:80-108 | the presets' trace follows their plan in order, in full on success |
| Engine.Start | openforbc_benchmark/cli/benchmark.py:64-108 | a successful run returns one stats entry per distinct preset name |
| Engine.StartFollowsPlan | openforbc_benchmark/cli/benchmark.py:64-108 | the run does a prefix of: all setup tasks, then each preset's tasks and its stats read; on success, all of it |
| Engine.PresetRows | openforbc_benchmark/cli/benchmark.py:225-226 | one `(preset, stat, value)` row per stat, in the stats' order |
| Engine.RowsCount | openforbc_benchmark/cli/benchmark.py:224-228 | the table has one row per stat of every preset |
| Engine.RowsMembership | openforbc_benchmark/cli/benchmark.py:224-228 | a row is in the table exactly when it is some preset's stat with its value |
| SuiteCli.Collect | openforbc_benchmark/cli/suite.py:45-51 | stats of the leading successful outcomes are kept in order; the first error stops the collection and is returned |
| SuiteCli.StartSuite | openforbc_benchmark/cli/suite.py:45-51 | with the constructor call corrected (see Findings): runs go in order; stats are collected for each run that succeeded; the suite fails with the first run's error and stops |
| SuiteCli.StartSuiteAsWritten | openforbc_benchmark/cli/suite.py:45-51 | as written, any non-empty suite raises `TypeError` from the two-argument `CliBenchmarkRun(...)` call before a run starts; only the empty suite completes |
| SuiteCli.SuiteConstructorMismatch | openforbc_benchmark/cli/suite.py:49 | a suite of runs that all succeed raises at once as written, while the corrected loop collects one stats entry per run |
| SuiteCli.SuiteStatsKeys | openforbc_benchmark/cli/suite.py:45-51 | each collected stats entry is keyed by exactly its run's preset names |
| SuiteCli.RunLabelInjective | openforbc_benchmark/cli/suite.py:37 | `RUN#<i+1> - <name>` headings of different runs or names differ |
| SuiteCli.SuiteReport | openforbc_benchmark/cli/suite.py:26-43 | a completed suite prints one table per run, under distinct headings, with one row per stat |
| SuiteCli.Selected | openforbc_benchmark/cli/suite.py:96-98 | the selected presets are the offered ones filtered by being ticked: in the offered order, with their multiplicity, nothing else |
| Seqs.FilterUnique | openforbc_benchmark/cli/suite.py:96-98 | an order-preserving filter is determined by the sequence and the test, so the filter clauses pin the result down |
| SuiteCli.PromptRunAsWritten | openforbc_benchmark/cli/suite.py:74-110 | exits 1 exactly when no offered preset is ticked; otherwise records every offered preset (as written) |
| SuiteCli.PromptRecordsUnselected | openforbc_benchmark/cli/suite.py:108-110 | ticking only `a` of `a` and `b` still records `b` |
| SuiteCli.PromptRun | openforbc_benchmark/cli/suite.py:92-110 | exits 1 when nothing or nothing offered is ticked; otherwise records the benchmark id and the ticked presets in the offered order |
| SuiteCli.DefineRuns | openforbc_benchmark/cli/suite.py:126-129 | as written: at least one round is always prompted; the tool succeeds exactly when every round ticks an offered preset, and then holds one definition per round in order, each with the benchmark id and all its presets |
| SuiteCli.DefineRunsFixed | openforbc_benchmark/cli/suite.py:108-129 | with the corrected prompt: succeeds exactly when every round ticks an offered preset, and each definition holds the round's benchmark id and the in-order filter of its presets by being ticked |
| SuiteCli.DefineRunsAgree | openforbc_benchmark/cli/suite.py:108-129 | the as-written and corrected loops succeed on the same rounds and define the same benchmarks in the same order |
| SuiteCli.Normalise | openforbc_benchmark/cli/suite.py:145-146 | the file name gains `.json` only if it lacks it |
| SuiteCli.NormaliseIdempotent | openforbc_benchmark/cli/suite.py:145-146 | normalising twice is normalising once; a name is unchanged exactly when it ends in `.json` |
| SuiteCli.SaveLoop | openforbc_benchmark/cli/suite.py:137-156 | the loop saves at the first non-empty answer that is new or may be overwritten, under `suites/<name>.json`; earlier answers are all rejected |
| PhoronixIndex.SplitVersion | common/phoronix_parser.py:14 | `rsplit('-', 1)` fails exactly when there is no `-`; otherwise name, `-`, version rebuild the directory, and the version has no `-` |
| PhoronixIndex.SplitJoin | common/phoronix_parser.py:14 | splitting `name-version` gives the parts back when the version has no `-` |
| PhoronixIndex.AddLookup | common/phoronix_parser.py:15-18 | adding a version appends it to its name's list and changes no other name |
| PhoronixIndex.AddAll | common/phoronix_parser.py:13-18 | the loop stops with `ValueError` exactly when some directory has no `-` |
| PhoronixIndex.VersionsOfMember | common/phoronix_parser.py:13-18 | a version is listed under a name exactly when `name-version` is a directory |
| PhoronixIndex.AddAllLookup | common/phoronix_parser.py:13-18 | after the loop each name lists its earlier versions followed by its directories' versions, in directory order |
| PhoronixIndex.Generate | common/phoronix_parser.py:12-18 | the sorted listing is added; the build fails exactly when some directory has no `-` |
| PhoronixIndex.Loaded | common/phoronix_parser.py:59-60 | an index that is already non-empty is not rebuilt |
| PhoronixIndex.Exists | common/phoronix_parser.py:57-69 | an empty name raises; an answer implies the name is indexed, and it is true exactly when no version is given or the version is listed |
| PhoronixIndex.FirstLoad | common/phoronix_parser.py:57-63 | on first use a name is indexed exactly when some directory names it, with its versions in sorted order |
| PhoronixIndex.ExistsOnListing | common/phoronix_parser.py:57-69 | against the directory listing: raises exactly for an empty or unknown name; true exactly when no version is given or `name-version` is a directory |
| PhoronixIndex.InstallPath | common/phoronix_parser.py:72-76 | an install path exists exactly when `phoronix_exists` answers true, and raises when it does; the path is `<root>/<name>-<version>`, with the given version or else the last version the index lists under the name |
| PhoronixIndex.InstallDefaultIsListed | common/phoronix_parser.py:74-76 | without a version, the path is `<root>/<name>-<last version>`, and that directory is in the listing |
| PhoronixDownload.Choose | benchmarks/phoronix-unigine-heaven-1.6.5/phoronix_downloader.py:132-133 | md5 wins when set; otherwise sha256; otherwise a non-zero size; otherwise no verification |
| PhoronixDownload.NoMethodAlwaysPasses | benchmarks/phoronix-unigine-heaven-1.6.5/phoronix_downloader.py:180-185 | with no digest and no size, any download is accepted |
| PhoronixDownload.Repr | benchmarks/phoronix-unigine-heaven-1.6.5/phoronix_downloader.py:74-79 | the label starts with `<filename> (platform=` and ends with the verification value and `)` |
| PhoronixDownload.ReprNamesMethod | benchmarks/phoronix-unigine-heaven-1.6.5/phoronix_downloader.py:74-79 | the label names the same method as the one used to verify, with its digest or size, or `noverify=1` |
| PhoronixDownload.TryUrls | benchmarks/phoronix-unigine-heaven-1.6.5/phoronix_downloader.py:154-196 | success names a URL of the list; failure is the "could not download" exception |
| PhoronixDownload.TryUrlsFirstGood | benchmarks/phoronix-unigine-heaven-1.6.5/phoronix_downloader.py:154-193 | the download succeeds exactly when some URL yields a verified file, and then it is the first such URL |
| PhoronixDownload.TryUrlsFiles | benchmarks/phoronix-unigine-heaven-1.6.5/phoronix_downloader.py:154-193 | on success the target holds what the chosen URL delivered; a leftover file after failure comes from an interrupted write; other files are untouched |
| PhoronixDownload.TryUrlsLanded | benchmarks/phoronix-unigine-heaven-1.6.5/phoronix_downloader.py:158-193 | on success the target file holds what the chosen URL delivered |
| PhoronixDownload.TryUrlsPartial | benchmarks/phoronix-unigine-heaven-1.6.5/phoronix_downloader.py:157-161 | a target file left after total failure comes from a download that failed while writing |
| PhoronixDownload.TryUrlsOthersKept | benchmarks/phoronix-unigine-heaven-1.6.5/phoronix_downloader.py:154-193 | trying URLs touches no file but the target |
| PhoronixDownload.Process | benchmarks/phoronix-unigine-heaven-1.6.5/phoronix_downloader.py:131-196 | a package is skipped exactly when it is for another platform; an existing file is kept exactly when it verifies; a download uses the first URL that yields a verified file; it fails, with the "could not download" error, exactly when it is needed, not kept, and no URL works; other files are untouched |
| PhoronixDownload.UnverifiedNotKept | benchmarks/phoronix-unigine-heaven-1.6.5/phoronix_downloader.py:143-152 | an existing file that fails verification is replaced by a verified download, or is left only by an interrupted write |
| PhoronixDownload.DownloadAll | benchmarks/phoronix-unigine-heaven-1.6.5/phoronix_downloader.py:131-196 | one status per package, `Skipped` exactly for other platforms, and each download from its first working URL; a failure is the error of a needed package none of whose URLs works |
| PhoronixDownload.DownloadAllFirstFailure | benchmarks/phoronix-unigine-heaven-1.6.5/phoronix_downloader.py:131-196 | the error raised is that of the first failing package: every package before it succeeds, and processing it on the files they leave raises exactly that error |
| PhoronixDownload.GoodUrlsNeverFail | benchmarks/phoronix-unigine-heaven-1.6.5/phoronix_downloader.py:131-196 | when every needed package has a working URL, the downloader never fails |
| PhoronixDownload.DownloadPackages | benchmarks/phoronix-unigine-heaven-1.6.5/phoronix_downloader.py:126-131 | with no `packages.json` nothing happens |
| PhoronixDownload.ForeignPackagesUntouched | benchmarks/phoronix-unigine-heaven-1.6.5/phoronix_downloader.py:135-137 | packages all for other platforms succeed and change no file |
| PhoronixDownload.Progress | benchmarks/phoronix-unigine-heaven-1.6.5/phoronix_downloader.py:30-45 | the bar finishes exactly when the size is known and `block_num * block_size` reaches it; otherwise it shows that product |
| PhoronixDownload.ProgressStaysFinished | benchmarks/phoronix-unigine-heaven-1.6.5/phoronix_downloader.py:37-45 | once finished, later blocks keep it finished |
| PhoronixDownload.Taken | benchmarks/phoronix-unigine-heaven-1.6.5/phoronix_downloader.py:94-98 | the copy reads chunks up to the first empty one |
| PhoronixDownload.CopyFile | benchmarks/phoronix-unigine-heaven-1.6.5/phoronix_downloader.py:82-100 | the file gets the chunks before the first empty read, concatenated; the bar is called once per chunk with block numbers from 1 and the buffer size (`COPY_BUFSIZE` when no length is given) |
| BlenderSetup.Hook | benchmarks/blender_benchmark/setup.py:19-28 | the bar finishes exactly when `block_num * block_size` reaches the total size; otherwise it shows that product |
| BlenderSetup.UnknownSizeFinishesAtOnce | benchmarks/blender_benchmark/setup.py:24-28 | with the size unknown (`-1`) every call finishes the bar |
| BlenderSetup.WithinIsPrefix | benchmarks/blender_benchmark/setup.py:57-64 | the guard holds exactly when the absolute target starts with the absolute directory, character by character |
| BlenderSetup.SiblingPassesGuard | benchmarks/blender_benchmark/setup.py:57-64 | a member `../<dir>X/...` escapes into a sibling directory whose name extends the target's, and still passes the guard |
| BlenderSetup.DirectoryNormal | benchmarks/blender_benchmark/setup.py:59 | an absolute two-component directory is its own `abspath` |
| BlenderSetup.MemberNormal | benchmarks/blender_benchmark/setup.py:60 | `abspath` of `/a/b/../c/x` is `/a/c/x` |
| BlenderSetup.SafeExtract | benchmarks/blender_benchmark/setup.py:66-73 | extraction proceeds exactly when every member passes the guard; otherwise it raises "Attempted Path Traversal in Tar File" |
| BlenderSetup.Launcher | benchmarks/blender_benchmark/setup.py:41-47 | Darwin gets `macos` with a zip; every other system its lower-cased name with a `tar.gz` (as written) |
| BlenderSetup.UnpackerFor | benchmarks/blender_benchmark/setup.py:55-79 | tar is used exactly for `linux`; everything else is unpacked as zip |
| BlenderSetup.WindowsArchiveMismatch | benchmarks/blender_benchmark/setup.py:41-79 | as written, Windows downloads a `tar.gz` that is then opened as a zip |
| BlenderSetup.LauncherFixed | benchmarks/blender_benchmark/setup.py:41-47 | the archive extension always matches the unpacker; Darwin and Linux keep their original choices |
| BlenderSetup.LauncherUrl | benchmarks/blender_benchmark/setup.py:49 | the URL is the release base and `benchmark-launcher-cli-3.0.0-`, then exactly the system name, then `.` and the extension |
| BlenderSetup.SetupAction | benchmarks/blender_benchmark/setup.py:41-79 | as written: nothing is fetched exactly when the launcher is present; otherwise the URL ends in `.zip` on Darwin and in `.tar.gz` everywhere else, and tar is used exactly on Linux |
| BlenderSetup.SetupActionWindows | benchmarks/blender_benchmark/setup.py:41-79 | as written, Windows fetches the `windows.tar.gz` launcher and opens it as a zip |
| BlenderSetup.SetupActionFixed | benchmarks/blender_benchmark/setup.py:41-79 | with the corrected launcher choice: the fetched archive's extension matches its unpacker, and tar is used exactly on Linux |
| BlenderSetup.SetupActionsAgree | benchmarks/blender_benchmark/setup.py:41-79 | on Linux and Darwin the as-written and corrected setups act alike |
| PosixPath.Join | openforbc_benchmark/cli/benchmark.py:120 | `join` with an absolute second part is that part; otherwise it is the first part, at most one `/`, then the second part, with a `/` between them when the first part is not empty |
| PosixPath.JoinInjective | openforbc_benchmark/cli/benchmark.py:120 | joining relative names onto the same directory keeps them apart |
| PosixPath.NormPathKeepsRoot | benchmarks/blender_benchmark/setup.py:59-60 | `normpath` keeps a path absolute exactly when it was |
| PosixPath.AbsPath | benchmarks/blender_benchmark/setup.py:59-60 | `abspath` of an absolute path, or against an absolute cwd, is absolute |
| PosixPath.CollapseCollapsed | benchmarks/blender_benchmark/setup.py:59-60 | the component loop of `normpath` leaves no empty or `.` component, and `..` only in a leading run of a relative path |
| PosixPath.CollapseIdentity | benchmarks/blender_benchmark/setup.py:59-60 | components already in that form pass through the loop unchanged |
| PosixPath.NormPathShape | benchmarks/blender_benchmark/setup.py:59-60 | `normpath` gives `.` or the kept leading slashes followed by collapsed components joined by single slashes |
| PosixPath.RenormFixed | benchmarks/blender_benchmark/setup.py:59-60 | a path in that normal form is its own `normpath` |
| PosixPath.NormPathIdempotent | benchmarks/blender_benchmark/setup.py:59-60 | `normpath` applied twice is `normpath` applied once |
| PosixPath.AbsPathIdempotent | benchmarks/blender_benchmark/setup.py:59-60 | an absolute `abspath` result is its own `abspath`, whatever the working directory |
| PosixPath.CommonPrefix | benchmarks/blender_benchmark/setup.py:62 | `commonprefix` is a prefix of both strings, and they differ right after it |
| PosixPath.CommonPrefixIsFirst | benchmarks/blender_benchmark/setup.py:62-64 | the common prefix equals the first string exactly when the second starts with it |
| Text.Sort | common/phoronix_parser.py:13 | `sorted` gives an ascending permutation of the listing |
| LegacyCli.MakeSuite | user_interfaces/cli.py:336-341 | the command refuses exactly when the counts differ, with "Unequal number of settings for benchmarks" |
| LegacyCli.MakeSuiteUnzips | user_interfaces/cli.py:339-341 | the suite list pairs the i-th benchmark with the i-th settings: unzipping gives both inputs back, and pairing an unzipped list rebuilds it |
| LegacyCli.RunAsWritten | user_interfaces/cli.py:260-281 | every requested name is reported, unknown ones skipped; an error is "Setting not found."; settings looked up for the first benchmark carry over to the next (as written) |
| LegacyCli.RunBenchmark | user_interfaces/cli.py:260-281 | fails exactly when some known benchmark lacks the settings it would run with; each run uses the given settings, or its own default |
| LegacyCli.AsWrittenAgreesWhenGiven | user_interfaces/cli.py:276-281 | with `-s` given, the code as written and the corrected model agree on every input |
| LegacyCli.DefaultLeaks | user_interfaces/cli.py:277-281 | as written, `a` then `b` without `-s` runs `b` with `a`'s default and fails; corrected, each uses its own |
| LegacyCli.DateAheadValues | user_interfaces/cli.py:434-436 | the pattern matches exactly when eight leading digits read as a year 1900-2099, a month 1-12 and a day 1-31 |
| LegacyCli.DateOfDated | user_interfaces/cli.py:440 | the date taken from a matching chunk is its prefix before `_`, and keeps the eight digits |
| LegacyCli.FormatDateRoundTrip | user_interfaces/cli.py:441-443 | hyphens go at positions 4 and 7, and removing them gives the date back |
| LegacyCli.Find | user_interfaces/cli.py:453 | `str.find` is the first position where the substring starts, or -1 when there is none |
| LegacyCli.FindFalsy | user_interfaces/cli.py:453 | `not s.find(t)` holds exactly when `s` starts with `t` |
| LegacyCli.SettingsCellRule | user_interfaces/cli.py:453-454 | the settings column shows `-` exactly when the settings start with the date and the benchmark does not start with `suite` |
| LegacyCli.FirstIndex | user_interfaces/cli.py:444-449 | the scan stops at the first `logs` component |
| LegacyCli.AfterLogs | user_interfaces/cli.py:444-449 | a benchmark and settings are read exactly when the path has a `logs` component |
| LegacyCli.ChunkStep | user_interfaces/cli.py:433-455 | a non-matching chunk adds nothing; a matching one appends exactly one row |
| LegacyCli.ChunkRow | user_interfaces/cli.py:439-455 | the row of a matching chunk holds the next index, the formatted date, and the two components after the first `logs` |
| LegacyCli.ChunksStep | user_interfaces/cli.py:433-455 | one row is appended per matching chunk of the path |
| LegacyCli.ListLogs | user_interfaces/cli.py:430-455 | only directories holding `output.log` contribute; their rows are appended after the earlier ones |
| LegacyCli.LogTable | user_interfaces/cli.py:425-455 | the table has one row per matching chunk of every log directory |
| TfBase.GpuDevice | benchmarks/tensorflow_benchmark/base.py:66 | the device name starts with `/device:GPU:` |
| TfBase.GpuDeviceNamesIndex | benchmarks/tensorflow_benchmark/base.py:66 | the digits after the prefix read back as the index |
| TfBase.GpuDeviceInjective | benchmarks/tensorflow_benchmark/base.py:66 | different indices name different devices |
| TfBase.DeviceAsWritten | benchmarks/tensorflow_benchmark/base.py:44-66 | cpu is `/cpu:0`; no GPU aborts; with GPUs only the default index gives a device, `/device:GPU:0` (as written) |
| TfBase.GivenIndexRaises | benchmarks/tensorflow_benchmark/base.py:24-56 | any `-g` value stays a string, so `gpu_index + 1` raises |
| TfBase.DeviceFixed | benchmarks/tensorflow_benchmark/base.py:44-66 | with an integer index: cpu is `/cpu:0`; no GPU aborts; an index at or past the count aborts with "GPU <index> not found"; an index below `-count` raises `IndexError` from `gpus[gpu_index]`; any other index, negative ones included, names a GPU device |
| TfBase.FarNegativeIndexRaises | benchmarks/tensorflow_benchmark/base.py:56-58 | with one GPU, index `-5` passes the count check and raises `IndexError` |
| TfBase.DefaultIndexAgrees | benchmarks/tensorflow_benchmark/base.py:44-66 | on the default index the code as written and the corrected selection agree |
| TfBase.Pad2Value | benchmarks/tensorflow_benchmark/base.py:73 | a two-digit field reads back as its number |
| TfBase.StampRoundTrip | benchmarks/tensorflow_benchmark/base.py:73 | `%Y-%m-%d_%H-%M-%S` is 19 characters whose digit fields read back as the time's fields |
| TfBase.StatsFileName | benchmarks/tensorflow_benchmark/base.py:68-73 | `stats_<prefix>_<stamp>.txt` is 30 characters longer than the prefix |
| TfBase.StatsFileNameParts | benchmarks/tensorflow_benchmark/base.py:73 | the prefix and the stamp can be read back out of the name |
| TfBase.StatsFileNameInjective | benchmarks/tensorflow_benchmark/base.py:68-73 | different prefixes or times give different names |
| TfBase.CeilDiv | benchmarks/tensorflow_benchmark/base.py:145 | `ceil(n / bs)` is the least k with `n <= k * bs` for a positive batch size |
| TfBase.Batches | benchmarks/tensorflow_benchmark/base.py:145-147 | batch size 0 raises `ZeroDivisionError`; a negative batch size gives no batches |
| TfBase.BatchesPartition | benchmarks/tensorflow_benchmark/base.py:145-147 | for a positive batch size there are `ceil(n / bs)` non-empty batches, all but the last exactly `bs`, concatenating to the data |
| TfBase.FlattenFrom | benchmarks/tensorflow_benchmark/base.py:145-147 | the batches from the j-th on concatenate to the data from `j * bs` on |
| TfBase.InferencePasses | benchmarks/tensorflow_benchmark/base.py:142-159 | the loop completes the reference number of passes: up to the interrupt, bounded by the limit |
| TfBase.LimitGivesPasses | benchmarks/tensorflow_benchmark/base.py:157-159 | with no interrupt, a limit `L >= 1` gives exactly `L` passes |
| TfBase.Run | benchmarks/tensorflow_benchmark/base.py:82-164 | test mode prints zero times and writes no stats file, and only test mode does; inference with batch size 0 raises `ZeroDivisionError` in its first pass, before any pass completes or the completion line is printed; otherwise inference completes the reference passes; a `ZeroDivisionError` is raised exactly when training has no epochs or no samples, or inference has batch size 0, no samples or no completed pass |
| TfBase.InterruptedFirstPassRaises | benchmarks/tensorflow_benchmark/base.py:142-164 | an inference interrupted during its first pass completes none and raises `ZeroDivisionError` in the average |
| TfBase.RunFilesDiffer | benchmarks/tensorflow_benchmark/base.py:111-141 | training and inference at the same moment write different stats files |

## Left out

- The spinner, `echo` output, colour and `tabulate`/`tablify` formatting are not modelled; only the rows of the tables are.
- The `selectors` concurrency of the drain loop is not modelled. It is modelled as a sequence of ready-stream reads in the order the selector reports them.
- Floating-point numbers: JSON numbers in definitions are integers. A stat value is an integer or a `real`, and no arithmetic is done on it.
- `Benchmark.validate` (the JSON schema) and `BenchmarkRun.get_stats`: schema validation is a parameter `valid`. Stats parsing is a parameter `getStats` that parses or fails.
- `listdir`, `exists`, `isfile`, `abspath`'s working directory, process creation, the network and the clock are parameters.
- The suite runner calls `CliBenchmarkRun(bench_run, flag)` and reads `run.stats`, but the `CliBenchmarkRun` shown takes no such flag and returns its stats from `start` (see Findings). `SuiteCli.StartSuite` uses the stats that `start` returns.
- `Definitions.DecodeStats`: a stats value that is neither a string, an object nor a list holding `"command"`, or a matcher that is not an object, raises a `TypeError` with a message of its own. Python's exact exception and message are not modelled: a list without `"command"` raises `AttributeError` at `.items()`, and `null`, a number or a boolean raise `TypeError` at the `in` test.
- `Definitions.RequiredString`: a `name` or `description` that is not a string is refused with a `TypeError`, where Python would store it as it is. The benchmark schema is expected to rule such a value out.
- `Definitions.DeserializePreset`: the bare `raise KeyError` is modelled as `KeyError("args")`.
- `Runnables.IntoPopenArgs`: the mutable default `env=environ.copy()`, shared between calls, is modelled as a fresh base environment per call.
- Phoronix profiles: `phoronix_list` and `phoronix_init` (git sparse checkout) are not modelled. Neither is the `downloads.xml` parsing inside `phoronix_install`; the model stops at the install path.
- `download_file`: the `Content-Length` header parsing and the streaming are replaced by a `fetch` parameter. It gives the bytes a URL delivers, or how the download failed. A URL is fetched the same way each time it is tried.
- `PhoronixDownload.CopyFile`: `COPY_BUFSIZE` is a fixed constant. A source that runs out of chunks counts as end of file.
- `PhoronixDownloadDefinition.from_json`/`into_json` are not modelled; packages are given as values.
- `SuiteCli.SaveLoop`: when the given answers run out before one is accepted, it returns `None`; the real prompt would keep asking.
- Progress-bar widgets and the `progressbar` library are not modelled; only when a call updates or finishes the bar is.
- `BlenderSetup.SafeExtract` models the guard as written; the extraction itself (`extractall`, the zip branch) is not modelled.
- Legacy CLI: the interactive menu is not modelled. Neither are `get_settings`, `list_suites`, `list_benchmarks`, `run_suite` and `install_phoronix`, the exceptions of `setItUp`/`startBenchmark`/`logIT`, and the JSON read of `default_settings`, which is a parameter `defaultOf`.
- TensorFlow base: `argparse` validation of the choices is not modelled. Neither is Keras training itself, nor the timing arithmetic; the final average is modelled only as far as whether its division raises. `set_memory_growth` is not modelled. The `list_physical_devices("GPU") == 0` check compares a list with 0, is always false, and is left out.
- `TfBase.InferencePasses`: requires a pass bound or an interrupt, because without either the source loops forever.
- `TfBase.CeilDiv`: `ceil(len(X) / batch_size)` goes through a float division; the model takes the exact ceiling.
- `Commands.DecodeArg`: a list command holding a non-string item is refused with `IllTyped("command")`, where Python stores the list as it is. A value that is neither a string nor a list is refused with `IllTyped("command")` too; Python hands it to `shlex.split`, which fails with an exception of its own that the model does not name.
- `Commands.DecodeOptString`: a `workdir` (or other optional string field) that is neither `null` nor a string is refused with `IllTyped`, where Python stores it as it is.
- `Commands.FromKeywords`: an `env` that is not an object of strings is refused with `IllTyped("env")`, where Python stores it as it is.
- `Definitions.DeserializeStat`: a `regex` that is not a string, or a `file` that is neither `null` nor a string, is refused with `IllTyped`, where Python stores it as it is.
- `Definitions.DeserializeBenchmark`: a `virtualenv` that is not a JSON boolean is refused with `IllTyped("virtualenv")`, where Python stores any value there and tests its truth later.
- `Discovery.FindBenchmark`: a `FileNotFoundError` or `NotADirectoryError` raised while loading one definition is returned as that step's error. In the source the `except` around the listing loop catches it too, prints the "not a directory" message and moves on to the next root.
- `Engine.RunTask`: a log file that cannot be opened is not modelled, and the streams are text, so a stdout line that is not valid UTF-8 cannot occur.
- `TfBase.Run`: what the framework does with an empty data set (`model.fit`, `model(x)`), or with `batch_size=0` in training, is not modelled; only the final average's division and the inference batch count are.
- `BlenderSetup.Launcher`: `str.lower` is modelled as ASCII lower-casing; `platform.system()` names are ASCII.
- `LegacyCli.DateAheadValues`: the pattern's `\d` is modelled as an ASCII digit, where Python's `re` also matches other Unicode decimal digits.
- `TfBase.MulMono`, `Text`, `Dicts`, `Seqs` and the remaining lemmas without a row are helpers for the proofs above.

## Findings

| source | as written | input that shows it | evidently intended | confidence | as-written member | corrected member |
|---|---|---|---|---|---|---|
| openforbc_benchmark/cli/suite.py:108-110 | the run definition lists every preset of the benchmark (`[preset.name for preset in presets]`) | presets `a`, `b`; only `a` ticked | list only the selected presets (`selected_presets`) | high; not executed | SuiteCli.PromptRunAsWritten, SuiteCli.PromptRecordsUnselected, SuiteCli.DefineRuns | SuiteCli.PromptRun, SuiteCli.DefineRunsFixed |
| benchmarks/blender_benchmark/setup.py:41-79 | every system except Darwin downloads `tar.gz`, but only Linux opens a tar; others open the archive as a zip | `platform.system()` is `Windows` | each platform's archive opened with the matching format | medium; not executed | BlenderSetup.Launcher, BlenderSetup.WindowsArchiveMismatch, BlenderSetup.SetupAction, BlenderSetup.SetupActionWindows | BlenderSetup.LauncherFixed, BlenderSetup.SetupActionFixed |
| user_interfaces/cli.py:277-281 | without `-s`, `settings` is assigned the first benchmark's default and then reused for every later benchmark | `-b a -b b`, no `-s`, where `b` lacks `a`'s settings file | each benchmark uses its own default settings | medium; not executed | LegacyCli.RunAsWritten, LegacyCli.DefaultLeaks | LegacyCli.RunBenchmark |
| openforbc_benchmark/cli/suite.py:45-51 | `CliBenchmarkRun(bench_run, self._log_to_stderr)` passes two arguments to an `__init__` that takes the run alone (cli/benchmark.py:42), and `run.stats` is read where `start` returns the stats | any suite with at least one run | construct the run from `bench_run` and append what `start()` returns | high; not executed | SuiteCli.StartSuiteAsWritten, SuiteCli.SuiteConstructorMismatch | SuiteCli.StartSuite |
| benchmarks/tensorflow_benchmark/base.py:24-56 | `-g` has no `type=int`, so a given index is a string and `gpu_index + 1` raises `TypeError` | `-g 1` with one GPU present | parse the index as an integer | high; not executed | TfBase.DeviceAsWritten, TfBase.GivenIndexRaises | TfBase.DeviceFixed |

`BlenderSetup.SiblingPassesGuard` records a further weakness that the model
keeps as written. The traversal guard compares paths character by character,
so a member under `/x/bin2` passes the guard for `/x/bin`.
