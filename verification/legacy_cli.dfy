/**
 * The older Typer command line: pairing benchmarks with settings for
 * `make-suite`, skipping unknown benchmarks in `run-benchmark`, and reading
 * dates, benchmarks and settings back out of log directory paths for
 * `list-logs`.
 */
module LegacyCli {
  import opened Wrappers
  import opened Exceptions
  import Text

  // ---------------------------------------------------------------------------
  // make-suite
  // ---------------------------------------------------------------------------

  /** One `{"name": ..., "settings": ...}` entry of a suite. */
  datatype Entry = Entry(name: string, settings: string)

  /** What `make-suite` echoes before exiting when the counts differ. */
  const UnequalMessage := "Unequal number of settings for benchmarks"

  /** `make_suite`: the i-th benchmark runs with the i-th settings; unequal counts exit with a message. */
  function MakeSuite(benchmarks: seq<string>, settings: seq<string>): (r: Result<seq<Entry>, string>)
    ensures r.Err? <==> |settings| != |benchmarks|
    ensures r.Err? ==> r.error == UnequalMessage
  {
    if |settings| != |benchmarks| then Err(UnequalMessage)
    else Ok(seq(|benchmarks|, i requires 0 <= i < |benchmarks| => Entry(benchmarks[i], settings[i])))
  }

  function Names(entries: seq<Entry>): (r: seq<string>)
    ensures |r| == |entries|
  {
    seq(|entries|, i requires 0 <= i < |entries| => entries[i].name)
  }

  function SettingsOf(entries: seq<Entry>): (r: seq<string>)
    ensures |r| == |entries|
  {
    seq(|entries|, i requires 0 <= i < |entries| => entries[i].settings)
  }

  /**
   * The pairing keeps both lists in order: the suite's names are the
   * benchmarks and its settings the settings, and any suite is what
   * `make_suite` builds from its own names and settings.
   */
  lemma MakeSuiteUnzips(benchmarks: seq<string>, settings: seq<string>, entries: seq<Entry>)
    ensures MakeSuite(benchmarks, settings).Ok? ==>
              Names(MakeSuite(benchmarks, settings).value) == benchmarks
              && SettingsOf(MakeSuite(benchmarks, settings).value) == settings
    ensures MakeSuite(Names(entries), SettingsOf(entries)) == Ok(entries)
  {
    var built := MakeSuite(Names(entries), SettingsOf(entries)).value;
    assert forall i :: 0 <= i < |entries| ==> built[i] == entries[i];
    assert built == entries;
  }

  // ---------------------------------------------------------------------------
  // run-benchmark
  // ---------------------------------------------------------------------------

  /** What the command does with one name it was given. */
  datatype Step = Unknown(name: string) | Ran(name: string, settings: string)

  /**
   * The installed benchmarks as the command sees them: the available names,
   * each one's `default_settings` from `benchmark_info.json`, and the files
   * in each one's `settings` directory.
   */
  datatype Installed = Installed(available: set<string>, defaultOf: string -> string, settingsIn: string -> set<string>)

  const SettingNotFound := "Setting not found."

  /** Every given name is reported in order, unknown exactly when it is not available. */
  predicate Reported(steps: seq<Step>, input: seq<string>, available: set<string>) {
    |steps| == |input|
    && forall i :: 0 <= i < |input| ==> steps[i].name == input[i] && (steps[i].Unknown? <==> input[i] !in available)
  }

  function Prepend(s: Step, r: Result<seq<Step>, Raised>): (q: Result<seq<Step>, Raised>)
    ensures q.Ok? <==> r.Ok?
  {
    if r.Ok? then Ok([s] + r.value) else r
  }

  /**
   * `run_benchmark` as written: an unknown name is reported and skipped; the
   * first known benchmark run without `-s` stores its default settings in
   * the same variable the option was read into, so every later benchmark is
   * checked against, and run with, that first default.
   */
  function RunAsWritten(input: seq<string>, inst: Installed, settings: Option<string>): (r: Result<seq<Step>, Raised>)
    ensures r.Err? ==> r.error == Failure(SettingNotFound)
    ensures r.Ok? ==> Reported(r.value, input, inst.available)
    decreases |input|
  {
    if |input| == 0 then Ok([])
    else
      var b := input[0];
      if b !in inst.available then Prepend(Unknown(b), RunAsWritten(input[1..], inst, settings))
      else if settings.None? then
        var s := inst.defaultOf(b);
        Prepend(Ran(b, s), RunAsWritten(input[1..], inst, Some(s)))
      else if settings.value !in inst.settingsIn(b) then Err(Failure(SettingNotFound))
      else Prepend(Ran(b, settings.value), RunAsWritten(input[1..], inst, settings))
  }

  /** A benchmark accepts the option when none was given or its settings directory holds the file. */
  predicate Accepts(inst: Installed, settings: Option<string>, b: string) {
    settings.None? || settings.value in inst.settingsIn(b)
  }

  /**
   * `run_benchmark` with each benchmark's default looked up afresh: the given
   * settings when there are some, else the benchmark's own default.
   */
  function RunBenchmark(input: seq<string>, inst: Installed, settings: Option<string>): (r: Result<seq<Step>, Raised>)
    ensures r.Err? <==> exists i :: 0 <= i < |input| && input[i] in inst.available && !Accepts(inst, settings, input[i])
    ensures r.Err? ==> r.error == Failure(SettingNotFound)
    ensures r.Ok? ==> Reported(r.value, input, inst.available)
    ensures r.Ok? ==> forall i :: 0 <= i < |input| && r.value[i].Ran? ==>
                        r.value[i].settings == settings.GetOr(inst.defaultOf(input[i]))
    decreases |input|
  {
    if |input| == 0 then Ok([])
    else
      var b := input[0];
      var rest := RunBenchmark(input[1..], inst, settings);
      assert forall i :: 0 < i < |input| ==> input[i] == input[1..][i - 1];
      if b !in inst.available then Prepend(Unknown(b), rest)
      else if !Accepts(inst, settings, b) then Err(Failure(SettingNotFound))
      else Prepend(Ran(b, settings.GetOr(inst.defaultOf(b))), rest)
  }

  /** With `-s` given the two agree: only the default is ever carried over. */
  lemma {:induction false} AsWrittenAgreesWhenGiven(input: seq<string>, inst: Installed, s: string)
    ensures RunAsWritten(input, inst, Some(s)) == RunBenchmark(input, inst, Some(s))
    decreases |input|
  {
    if |input| > 0 {
      AsWrittenAgreesWhenGiven(input[1..], inst, s);
    }
  }

  /**
   * Two benchmarks, no `-s`: as written the second is checked against the
   * first's default, which its settings directory does not hold, and the
   * command raises; looking each default up runs both with their own.
   */
  lemma DefaultLeaks()
    ensures var inst := Installed({"a", "b"},
                                  x => if x == "a" then "a.json" else "b.json",
                                  x => if x == "a" then {"a.json"} else {"b.json"});
            RunAsWritten(["a", "b"], inst, None) == Err(Failure(SettingNotFound))
            && RunBenchmark(["a", "b"], inst, None) == Ok([Ran("a", "a.json"), Ran("b", "b.json")])
  {
    var inst := Installed({"a", "b"},
                          x => if x == "a" then "a.json" else "b.json",
                          x => if x == "a" then {"a.json"} else {"b.json"});
    assert ["a", "b"][1..] == ["b"];
    assert ["b"][1..] == [];
    assert "a.json" != "b.json" && "b" != "a";
    assert [Ran("b", "b.json")] + [] == [Ran("b", "b.json")];
    assert RunAsWritten(["b"], inst, Some("a.json")) == Err(Failure(SettingNotFound));
    assert RunBenchmark(["b"], inst, None) == Ok([Ran("b", "b.json")]);
    assert [Ran("a", "a.json")] + [Ran("b", "b.json")] == [Ran("a", "a.json"), Ran("b", "b.json")];
  }

  // ---------------------------------------------------------------------------
  // list-logs
  // ---------------------------------------------------------------------------

  predicate Digit(c: char) {
    '0' <= c <= '9'
  }

  /**
   * `re.match(r"(19|20)\d\d(0[1-9]|1[012])(0[1-9]|[12][0-9]|3[01])", s)`
   * succeeds: the pattern is anchored at the start only, so anything may follow.
   */
  predicate DateAhead(s: string) {
    |s| >= 8
    && ((s[0] == '1' && s[1] == '9') || (s[0] == '2' && s[1] == '0'))
    && Digit(s[2]) && Digit(s[3])
    && ((s[4] == '0' && '1' <= s[5] <= '9') || (s[4] == '1' && '0' <= s[5] <= '2'))
    && ((s[6] == '0' && '1' <= s[7] <= '9') || ('1' <= s[6] <= '2' && Digit(s[7])) || (s[6] == '3' && '0' <= s[7] <= '1'))
  }

  function DigitValue(c: char): int {
    c as int - '0' as int
  }

  /** The pattern in numbers: eight leading digits reading as a year 1900-2099, a month 1-12 and a day 1-31. */
  lemma DateAheadValues(s: string)
    ensures DateAhead(s) <==>
              |s| >= 8 && (forall i :: 0 <= i < 8 ==> Digit(s[i]))
              && 1900 <= Text.DigitsValue(s[..4]) <= 2099
              && 1 <= Text.DigitsValue(s[4..6]) <= 12
              && 1 <= Text.DigitsValue(s[6..8]) <= 31
  {
    if |s| >= 8 && forall i :: 0 <= i < 8 ==> Digit(s[i]) {
      DigitsValueTwo(s[4..6]);
      DigitsValueTwo(s[6..8]);
      DigitsValueFour(s[..4]);
    }
  }

  lemma DigitsValueTwo(t: string)
    requires |t| == 2 && Digit(t[0]) && Digit(t[1])
    ensures Text.DigitsValue(t) == 10 * DigitValue(t[0]) + DigitValue(t[1])
  {
    assert t[..1][..0] == [] && t[..1][0] == t[0];
    assert Text.DigitsValue(t[..1]) == DigitValue(t[0]);
  }

  lemma DigitsValueFour(t: string)
    requires |t| == 4 && Digit(t[0]) && Digit(t[1]) && Digit(t[2]) && Digit(t[3])
    ensures Text.DigitsValue(t) == 1000 * DigitValue(t[0]) + 100 * DigitValue(t[1]) + 10 * DigitValue(t[2]) + DigitValue(t[3])
  {
    DigitsValueTwo(t[..2]);
    assert t[..3][..2] == t[..2];
    assert t[..4] == t;
  }

  /** `chunk.split("_")[0]`: the directory name up to its first underscore. */
  function DateOf(chunk: string): string {
    Text.Split(chunk, '_')[0]
  }

  /** A dated directory name keeps its eight date digits before any underscore. */
  lemma DateOfDated(chunk: string)
    requires DateAhead(chunk)
    ensures |DateOf(chunk)| >= 8 && DateOf(chunk)[..8] == chunk[..8]
    ensures Text.StartsWith(chunk, DateOf(chunk)) && '_' !in DateOf(chunk)
  {
    if '_' in chunk {
      var k := Text.IndexOf(chunk, '_');
      assert forall j :: 0 <= j < 8 ==> chunk[j] != '_';
      assert DateOf(chunk) == chunk[..k];
      assert chunk[..k][..8] == chunk[..8];
    } else {
      Text.SplitNone(chunk, '_');
    }
  }

  /** `date[:4] + "-" + date[4:6] + "-" + date[6:]` for a date of at least six characters. */
  function FormatDate(d: string): string
    requires |d| >= 6
  {
    d[..4] + "-" + d[4..6] + "-" + d[6..]
  }

  /** The formatting only inserts two hyphens: taking them out gives the date back. */
  lemma FormatDateRoundTrip(d: string)
    requires |d| >= 6
    ensures var r := FormatDate(d);
            |r| == |d| + 2 && r[4] == '-' && r[7] == '-' && r[..4] + r[5..7] + r[8..] == d
  {
    var r := FormatDate(d);
    assert r[..4] == d[..4] && r[5..7] == d[4..6] && r[8..] == d[6..];
    assert d == d[..4] + d[4..6] + d[6..];
  }

  /** `s.find(sub)`: the lowest index at which `sub` occurs in `s`, or -1. */
  function Find(s: string, sub: string): (r: int)
    ensures -1 <= r <= |s|
    ensures r >= 0 ==> Text.StartsWith(s[r..], sub)
    ensures r >= 0 ==> forall k :: 0 <= k < r ==> !Text.StartsWith(s[k..], sub)
    ensures r == -1 ==> forall k :: 0 <= k <= |s| ==> !Text.StartsWith(s[k..], sub)
    decreases |s|
  {
    if Text.StartsWith(s, sub) then 0
    else if |s| == 0 then -1
    else
      var k := Find(s[1..], sub);
      assert forall j :: 0 < j <= |s| ==> s[j..] == s[1..][j - 1..];
      if k < 0 then -1 else k + 1
  }

  /** `not s.find(sub)` holds exactly when `s` starts with `sub`; any other result of `find` is truthy. */
  lemma FindFalsy(s: string, sub: string)
    ensures Find(s, sub) == 0 <==> Text.StartsWith(s, sub)
  {
    assert s[0..] == s;
  }

  /**
   * The settings cell: `"-"` when the settings directory's name starts with
   * the date and the benchmark's does not start with "suite", as the code's
   * `not settings.find(date) and bmark.find("suite")` decides.
   */
  function SettingsCell(bmark: string, settings: string, date: string): (r: string)
    ensures r == "-" || r == settings
  {
    if Find(settings, date) == 0 && Find(bmark, "suite") != 0 then "-" else settings
  }

  /** The settings cell reads as a pair of prefix tests. */
  lemma SettingsCellRule(bmark: string, settings: string, date: string)
    ensures SettingsCell(bmark, settings, date) ==
              if Text.StartsWith(settings, date) && !Text.StartsWith(bmark, "suite") then "-" else settings
  {
    FindFalsy(settings, date);
    FindFalsy(bmark, "suite");
  }

  /** Index of the first `x` in `xs`. */
  function FirstIndex(xs: seq<string>, x: string): (r: Option<nat>)
    ensures r.None? <==> x !in xs
    ensures r.Some? ==> r.value < |xs| && xs[r.value] == x && x !in xs[..r.value]
  {
    if |xs| == 0 then None
    else if xs[0] == x then Some(0)
    else
      var r := FirstIndex(xs[1..], x);
      assert xs == [xs[0]] + xs[1..];
      if r.None? then None
      else
        assert xs[..r.value + 1] == [xs[0]] + xs[1..][..r.value];
        Some(r.value + 1)
  }

  /** One row of the log table. */
  datatype Row = Row(index: int, date: string, benchmark: string, settings: string)

  /**
   * The loop's variables between chunks: the running index, the last
   * benchmark and settings read (they outlive the loop body, as Python
   * locals do), and the rows so far.
   */
  datatype Cursor = Cursor(index: int, last: Option<(string, string)>, rows: seq<Row>)

  /** The benchmark and settings for a path: the two components after the first "logs". */
  function AfterLogs(root: seq<string>): (r: Option<Result<(string, string), Raised>>)
    ensures r.None? <==> "logs" !in root
  {
    match FirstIndex(root, "logs")
    case None => None
    case Some(i) => if i + 2 < |root| then Some(Ok((root[i + 1], root[i + 2]))) else Some(Err(IndexError))
  }

  /**
   * One path component: a component that does not start with a date is
   * passed over; one that does adds a row. A path without "logs" reuses the
   * benchmark and settings of the previous row, and raises when there is none.
   */
  function ChunkStep(root: seq<string>, chunk: string, c: Cursor): (r: Result<Cursor, Raised>)
    ensures !DateAhead(chunk) ==> r == Ok(c)
    ensures DateAhead(chunk) && r.Ok? ==> |r.value.rows| == |c.rows| + 1 && r.value.rows[..|c.rows|] == c.rows
  {
    if !DateAhead(chunk) then Ok(c)
    else
      DateOfDated(chunk);
      var date := DateOf(chunk);
      var found := AfterLogs(root);
      var named: Result<(int, (string, string)), Raised> :=
        match found
        case Some(Ok(pair)) => Ok((c.index + 1, pair))
        case Some(Err(e)) => Err(e)
        case None => if c.last.Some? then Ok((c.index, c.last.value)) else Err(Unbound("settings"));
      if named.Err? then Err(named.error)
      else
        var (index, (bmark, settings)) := named.value;
        var cell := SettingsCell(bmark, settings, date);
        Ok(Cursor(index, Some((bmark, cell)), c.rows + [Row(index, FormatDate(date), bmark, cell)]))
  }

  /**
   * A dated component of a path under `logs/<benchmark>/<settings>` gives
   * the row the table promises: the next index, the date with hyphens, the
   * two components after "logs", and "-" for settings exactly when they
   * start with the date and the benchmark does not start with "suite".
   */
  lemma ChunkRow(root: seq<string>, chunk: string, c: Cursor, i: nat)
    requires DateAhead(chunk)
    requires i + 2 < |root| && root[i] == "logs" && "logs" !in root[..i]
    ensures var r := ChunkStep(root, chunk, c);
            r.Ok? && r.value.rows[|c.rows|] ==
              Row(c.index + 1, FormatDate(DateOf(chunk)), root[i + 1],
                  if Text.StartsWith(root[i + 2], DateOf(chunk)) && !Text.StartsWith(root[i + 1], "suite")
                  then "-" else root[i + 2])
  {
    DateOfDated(chunk);
    var k := FirstIndex(root, "logs").value;
    assert forall j :: 0 <= j < i ==> root[..i][j] == root[j];
    assert forall j :: 0 <= j < k ==> root[..k][j] == root[j];
    assert k == i;
    SettingsCellRule(root[i + 1], root[i + 2], DateOf(chunk));
  }

  /** Every component of one path, left to right. */
  function ChunksStep(root: seq<string>, chunks: seq<string>, c: Cursor): (r: Result<Cursor, Raised>)
    ensures r.Ok? ==> |r.value.rows| == |c.rows| + Dated(chunks) && r.value.rows[..|c.rows|] == c.rows
    decreases |chunks|
  {
    if |chunks| == 0 then Ok(c)
    else
      var first := ChunkStep(root, chunks[0], c);
      if first.Err? then first
      else
        var r := ChunksStep(root, chunks[1..], first.value);
        assert r.Ok? ==> r.value.rows[..|c.rows|] == r.value.rows[..|first.value.rows|][..|c.rows|];
        r
  }

  /** How many of the components start with a date. */
  function Dated(chunks: seq<string>): nat {
    if |chunks| == 0 then 0 else (if DateAhead(chunks[0]) then 1 else 0) + Dated(chunks[1..])
  }

  /** One directory of the walk under `logs`: its path and the names of its files. */
  datatype Visit = Visit(path: string, files: seq<string>)

  /** Rows a visit can add: one per dated component when the directory holds `output.log`. */
  function Expected(visits: seq<Visit>): nat {
    if |visits| == 0 then 0
    else (if "output.log" in visits[0].files then Dated(Text.Split(visits[0].path, '/')) else 0) + Expected(visits[1..])
  }

  /**
   * `list_logs`: for each directory of the walk that holds `output.log`,
   * its path split on the separator is scanned component by component.
   */
  function ListLogs(visits: seq<Visit>, c: Cursor): (r: Result<Cursor, Raised>)
    ensures r.Ok? ==> |r.value.rows| == |c.rows| + Expected(visits) && r.value.rows[..|c.rows|] == c.rows
    decreases |visits|
  {
    if |visits| == 0 then Ok(c)
    else
      var v := visits[0];
      var next := if "output.log" in v.files then
                    var root := Text.Split(v.path, '/');
                    ChunksStep(root, root, c)
                  else Ok(c);
      if next.Err? then next
      else
        var r := ListLogs(visits[1..], next.value);
        assert r.Ok? ==> r.value.rows[..|c.rows|] == r.value.rows[..|next.value.rows|][..|c.rows|];
        r
  }

  /** The table as the command starts it: index 0, nothing read yet, no rows. */
  function LogTable(visits: seq<Visit>): (r: Result<seq<Row>, Raised>)
    ensures r.Ok? ==> |r.value| == Expected(visits)
  {
    var r := ListLogs(visits, Cursor(0, None, []));
    if r.Ok? then Ok(r.value.rows) else Err(r.error)
  }
}
