/**
 * The suite command line: running every benchmark run of a suite in order,
 * labelling their stats tables, and the interactive suite-definition tool's
 * preset selection and file-name loop.
 */
module SuiteCli {
  import opened Wrappers
  import Exceptions
  import Text
  import Seqs
  import Dicts
  import PosixPath
  import Engine

  // ---------------------------------------------------------------------------
  // Running a suite
  // ---------------------------------------------------------------------------

  /** One benchmark run of a suite: the benchmark's display name, its world and its plan. */
  datatype SuiteRun = SuiteRun(name: string, world: Engine.World, plan: Engine.Plan)

  /** The stats one benchmark run produces: preset name to stat table. */
  type RunStats = Dicts.Dict<string, Engine.StatTable>

  /** The stats collected so far and the error that stopped the suite, if any. */
  datatype SuiteOutcome = SuiteOutcome(stats: seq<RunStats>, error: Option<Engine.RunError>)

  /** Result of one benchmark run. */
  function RunOutcome(run: SuiteRun): Engine.Outcome {
    Engine.Start(run.world, run.plan)
  }

  /** The outcome of each run, in order. */
  function Outcomes(runs: seq<SuiteRun>): (r: seq<Engine.Outcome>)
    ensures |r| == |runs| && forall i :: 0 <= i < |runs| ==> r[i] == RunOutcome(runs[i])
  {
    seq(|runs|, i requires 0 <= i < |runs| => RunOutcome(runs[i]))
  }

  /** Stats of the leading successful outcomes, stopping at the first error. */
  function Collect(outcomes: seq<Engine.Outcome>): (r: SuiteOutcome)
    ensures |r.stats| <= |outcomes|
    ensures r.error.None? <==> |r.stats| == |outcomes|
    ensures forall i :: 0 <= i < |r.stats| ==> outcomes[i].error.None? && r.stats[i] == outcomes[i].state.stats
    ensures r.error.Some? ==> r.error == outcomes[|r.stats|].error
    decreases |outcomes|
  {
    if |outcomes| == 0 then SuiteOutcome([], None)
    else if outcomes[0].error.Some? then SuiteOutcome([], outcomes[0].error)
    else
      var rest := Collect(outcomes[1..]);
      SuiteOutcome([outcomes[0].state.stats] + rest.stats, rest.error)
  }

  /**
   * `CliBenchmarkSuiteRun.start`: the runs execute in order and each appends
   * one stats entry; a run that fails ends the whole suite with its error.
   */
  function StartSuite(runs: seq<SuiteRun>): (r: SuiteOutcome)
    ensures |r.stats| <= |runs|
    ensures r.error.None? <==> |r.stats| == |runs|
    ensures forall i :: 0 <= i < |r.stats| ==>
              RunOutcome(runs[i]).error.None? && r.stats[i] == RunOutcome(runs[i]).state.stats
    ensures r.error.Some? ==> r.error == RunOutcome(runs[|r.stats|]).error
  {
    Collect(Outcomes(runs))
  }

  /** The exception a two-argument call of the one-argument `CliBenchmarkRun.__init__` raises. */
  const ConstructorArity := Exceptions.TypeError("CliBenchmarkRun.__init__() takes 2 positional arguments but 3 were given")

  /**
   * `CliBenchmarkSuiteRun.start` as written: the first iteration calls
   * `CliBenchmarkRun(bench_run, self._log_to_stderr)`, whose `__init__` takes
   * the run alone, so a suite with any run raises `TypeError` before a run
   * starts; only the empty suite completes, with no stats.
   */
  function StartSuiteAsWritten(runs: seq<SuiteRun>): (r: Result<seq<RunStats>, Exceptions.Raised>)
    ensures r.Ok? <==> |runs| == 0
    ensures r.Ok? ==> |r.value| == |runs|
    ensures r.Err? ==> r.error == ConstructorArity
  {
    if |runs| == 0 then Ok([]) else Err(ConstructorArity)
  }

  /**
   * A suite whose runs all succeed collects one stats entry per run once the
   * constructor is called with the run alone and the stats `start` returns are
   * appended, while as written it raises at once.
   */
  lemma SuiteConstructorMismatch(runs: seq<SuiteRun>)
    requires |runs| > 0
    requires forall i :: 0 <= i < |runs| ==> RunOutcome(runs[i]).error.None?
    ensures StartSuiteAsWritten(runs) == Err(ConstructorArity)
    ensures StartSuite(runs).error.None? && |StartSuite(runs).stats| == |runs|
  {
  }

  /** Each stats entry has one table per preset of its run, keyed by preset name. */
  lemma SuiteStatsKeys(runs: seq<SuiteRun>)
    ensures forall i :: 0 <= i < |StartSuite(runs).stats| ==>
              Dicts.KeySet(StartSuite(runs).stats[i]) == Engine.Names(runs[i].plan.presets)
              && Dicts.UniqueKeys(StartSuite(runs).stats[i])
  {
    var stats := StartSuite(runs).stats;
    forall i | 0 <= i < |stats|
      ensures Dicts.KeySet(stats[i]) == Engine.Names(runs[i].plan.presets) && Dicts.UniqueKeys(stats[i])
    {
      assert RunOutcome(runs[i]).error.None?;
    }
  }

  // ---------------------------------------------------------------------------
  // Printing a suite's stats
  // ---------------------------------------------------------------------------

  /** Heading of the i-th (0-based) run's table: `RUN#<i + 1> - <name>`. */
  function RunLabel(i: nat, name: string): string {
    "RUN#" + Text.NatToString(i + 1) + " - " + name
  }

  /** In digits followed by a space, the first space sits right after the digits. */
  lemma {:induction false} FirstSpace(d: string, rest: string)
    requires forall k :: 0 <= k < |d| ==> '0' <= d[k] <= '9'
    requires |rest| > 0 && rest[0] == ' '
    ensures ' ' in d + rest && Text.IndexOf(d + rest, ' ') == |d|
    decreases |d|
  {
    var s := d + rest;
    assert s[|d|] == ' ';
    if |d| > 0 {
      assert s[1..] == d[1..] + rest;
      FirstSpace(d[1..], rest);
    }
  }

  /** Two labels are equal only for the same position and the same name. */
  lemma RunLabelInjective(i: nat, j: nat, a: string, b: string)
    ensures RunLabel(i, a) == RunLabel(j, b) ==> i == j && a == b
  {
    if RunLabel(i, a) == RunLabel(j, b) {
      var d1, d2 := Text.NatToString(i + 1), Text.NatToString(j + 1);
      RunLabelTail(i, a);
      RunLabelTail(j, b);
      DigitsThenSpace(d1, " - " + a, d2, " - " + b);
      assert a == (" - " + a)[3..] && b == (" - " + b)[3..];
      Text.NatToStringInjective(i + 1, j + 1);
    }
  }

  /** After the `RUN#` prefix, a label is the run number, then ` - ` and the name. */
  lemma RunLabelTail(i: nat, a: string)
    ensures |RunLabel(i, a)| >= 4
    ensures RunLabel(i, a)[4..] == Text.NatToString(i + 1) + (" - " + a)
  {
    var d := Text.NatToString(i + 1);
    assert RunLabel(i, a) == "RUN#" + (d + (" - " + a));
  }

  /** Digits followed by text starting with a space split back apart in one way only. */
  lemma DigitsThenSpace(d1: string, x: string, d2: string, y: string)
    requires forall k :: 0 <= k < |d1| ==> '0' <= d1[k] <= '9'
    requires forall k :: 0 <= k < |d2| ==> '0' <= d2[k] <= '9'
    requires |x| > 0 && x[0] == ' ' && |y| > 0 && y[0] == ' '
    requires d1 + x == d2 + y
    ensures d1 == d2 && x == y
  {
    FirstSpace(d1, x);
    FirstSpace(d2, y);
    assert d1 == (d1 + x)[..|d1|] && x == (d1 + x)[|d1|..];
    assert d2 == (d2 + y)[..|d2|] && y == (d2 + y)[|d2|..];
  }

  /** One printed table: its heading and its `(preset, stat, value)` rows. */
  datatype Block = Block(heading: string, rows: seq<Engine.Row>)

  /**
   * `CliBenchmarkSuiteRun.print_stats` without `--json`: one block per stats
   * entry, headed by the matching run's benchmark name. The source indexes the
   * suite's runs by the stats position, so there must be a run for every entry.
   */
  function StatsBlocks(runs: seq<SuiteRun>, stats: seq<RunStats>): (r: seq<Block>)
    requires |stats| <= |runs|
    ensures |r| == |stats|
  {
    seq(|stats|, i requires 0 <= i < |stats| => Block(RunLabel(i, runs[i].name), Engine.Rows(stats[i])))
  }

  /**
   * After a suite that completed, there is one block per run, in run order;
   * the labels are pairwise distinct and block i holds one row per stat of run i.
   */
  lemma SuiteReport(runs: seq<SuiteRun>)
    requires StartSuite(runs).error.None?
    ensures |StatsBlocks(runs, StartSuite(runs).stats)| == |runs|
    ensures forall i, j :: 0 <= i < j < |runs| ==>
              StatsBlocks(runs, StartSuite(runs).stats)[i].heading != StatsBlocks(runs, StartSuite(runs).stats)[j].heading
    ensures forall i :: 0 <= i < |runs| ==>
              |StatsBlocks(runs, StartSuite(runs).stats)[i].rows| == Engine.StatCount(RunOutcome(runs[i]).state.stats)
  {
    var stats := StartSuite(runs).stats;
    var b := StatsBlocks(runs, stats);
    forall i, j | 0 <= i < j < |runs|
      ensures b[i].heading != b[j].heading
    {
      RunLabelInjective(i, j, runs[i].name, runs[j].name);
    }
    forall i | 0 <= i < |runs|
      ensures |b[i].rows| == Engine.StatCount(RunOutcome(runs[i]).state.stats)
    {
      Engine.RowsCount(stats[i]);
    }
  }

  // ---------------------------------------------------------------------------
  // Defining a suite interactively
  // ---------------------------------------------------------------------------

  /** A benchmark run entry of a suite definition: benchmark id and preset names. */
  datatype RunDefinition = RunDefinition(benchmark: string, presets: seq<string>)

  /** Whether a preset name is among those ticked. */
  function Ticked(chosen: seq<string>): string -> bool {
    n => n in chosen
  }

  /**
   * `[preset for preset in presets if preset.name in selected_preset_names]`:
   * the ticked presets, in preset order and as often as they occur.
   */
  function Selected(presets: seq<string>, chosen: seq<string>): (r: seq<string>)
    ensures Seqs.FilterOf(r, presets, Ticked(chosen))
    ensures forall n :: n in r <==> n in presets && n in chosen
    decreases |presets|
  {
    if |presets| == 0 then []
    else
      var rest := Selected(presets[1..], chosen);
      if presets[0] in chosen then
        Seqs.FilterConsKept(presets[0], rest, presets, Ticked(chosen));
        [presets[0]] + rest
      else
        Seqs.FilterConsDropped(rest, presets, Ticked(chosen));
        rest
  }

  /** Nothing ticked selects nothing. */
  lemma {:induction false} SelectedNothing(presets: seq<string>, chosen: seq<string>)
    requires |chosen| == 0
    ensures Selected(presets, chosen) == []
    decreases |presets|
  {
    if |presets| > 0 {
      SelectedNothing(presets[1..], chosen);
    }
  }

  /**
   * `prompt_benchmark_run` as written: an empty selection, or one naming no
   * known preset, exits with status 1; otherwise the definition lists every
   * preset of the benchmark, whatever was ticked.
   */
  function PromptRunAsWritten(id: string, presets: seq<string>, chosen: seq<string>): (r: Result<RunDefinition, int>)
    ensures r.Err? ==> r.error == 1
    ensures r.Err? <==> |Selected(presets, chosen)| == 0
    ensures r.Ok? ==> r.value.benchmark == id && r.value.presets == presets
  {
    if |chosen| == 0 then
      SelectedNothing(presets, chosen);
      Err(1)
    else if |Selected(presets, chosen)| == 0 then Err(1)
    else Ok(RunDefinition(id, presets))
  }

  /** Ticking only "a" of the presets "a" and "b" still records "b". */
  lemma PromptRecordsUnselected()
    ensures PromptRunAsWritten("bench", ["a", "b"], ["a"]).Ok?
    ensures "b" in PromptRunAsWritten("bench", ["a", "b"], ["a"]).value.presets
  {
    assert "a" in Selected(["a", "b"], ["a"]);
  }

  /**
   * `prompt_benchmark_run` with the selection it computes put to use: the
   * definition lists exactly the ticked presets; nothing ticked, or nothing
   * ticked that the benchmark has, exits with status 1.
   */
  function PromptRun(id: string, presets: seq<string>, chosen: seq<string>): (r: Result<RunDefinition, int>)
    ensures r.Err? ==> r.error == 1
    ensures |chosen| == 0 ==> r == Err(1)
    ensures r.Err? <==> forall n :: n in presets ==> n !in chosen
    ensures r.Ok? ==> r.value.benchmark == id
    ensures r.Ok? ==> forall n :: n in r.value.presets <==> n in presets && n in chosen
    ensures r.Ok? ==> Seqs.FilterOf(r.value.presets, presets, Ticked(chosen))
  {
    if |chosen| == 0 then
      SelectedNothing(presets, chosen);
      Err(1)
    else
      var selected := Selected(presets, chosen);
      if |selected| == 0 then Err(1)
      else
        assert selected[0] in presets && selected[0] in chosen;
        Ok(RunDefinition(id, selected))
  }

  /** One round of the definition tool: the benchmark picked and the presets ticked. */
  datatype Prompt = Prompt(id: string, presets: seq<string>, chosen: seq<string>)

  /** The rounds of the prompt loop, each answered by `round`. */
  function Rounds(prompts: seq<Prompt>, round: Prompt -> Result<RunDefinition, int>): (r: seq<Result<RunDefinition, int>>)
    ensures |r| == |prompts| && forall i :: 0 <= i < |prompts| ==> r[i] == round(prompts[i])
  {
    seq(|prompts|, i requires 0 <= i < |prompts| => round(prompts[i]))
  }

  /** A round as written: `prompt_benchmark_run`, which records every offered preset. */
  function AsWrittenRound(p: Prompt): Result<RunDefinition, int> {
    PromptRunAsWritten(p.id, p.presets, p.chosen)
  }

  /** A round that records the ticked presets. */
  function FixedRound(p: Prompt): Result<RunDefinition, int> {
    PromptRun(p.id, p.presets, p.chosen)
  }

  /**
   * The tool's `while True` loop as written: the first round always runs,
   * and each `more` round follows a "yes" to "add another benchmark run?".
   * Every round records all presets of its benchmark; a round that exits
   * stops the tool with status 1.
   */
  function DefineRuns(first: Prompt, more: seq<Prompt>): (r: Result<seq<RunDefinition>, int>)
    ensures r.Ok? ==> |r.value| == 1 + |more|
    ensures r.Ok? <==> forall i :: 0 <= i < 1 + |more| ==>
              |Selected(([first] + more)[i].presets, ([first] + more)[i].chosen)| > 0
    ensures r.Ok? ==> forall i :: 0 <= i < 1 + |more| ==>
              r.value[i] == RunDefinition(([first] + more)[i].id, ([first] + more)[i].presets)
    ensures r.Err? ==> r.error == 1
  {
    var rs := Rounds([first] + more, AsWrittenRound);
    var r := AllOk(rs);
    if r.Err? then
      AllOkFirstError(rs);
      r
    else
      r
  }

  /** Some preset the round offers is ticked. */
  predicate TicksOffered(p: Prompt) {
    exists n :: n in p.presets && n in p.chosen
  }

  /** A fixed round succeeds exactly when it ticks an offered preset. */
  lemma FixedRoundOk(p: Prompt)
    ensures FixedRound(p).Ok? <==> TicksOffered(p)
  {
  }

  /** The prompt loop with each round recording only its ticked presets. */
  function DefineRunsFixed(first: Prompt, more: seq<Prompt>): (r: Result<seq<RunDefinition>, int>)
    ensures r.Ok? ==> |r.value| == 1 + |more|
    ensures r.Ok? <==> forall i :: 0 <= i < 1 + |more| ==> TicksOffered(([first] + more)[i])
    ensures r.Ok? ==> forall i :: 0 <= i < 1 + |more| ==>
              && r.value[i].benchmark == ([first] + more)[i].id
              && Seqs.FilterOf(r.value[i].presets, ([first] + more)[i].presets, Ticked(([first] + more)[i].chosen))
    ensures r.Err? ==> r.error == 1
  {
    var rs := Rounds([first] + more, FixedRound);
    var r := AllOk(rs);
    if r.Err? then
      AllOkFirstError(rs);
      var i :| 0 <= i < |rs| && rs[i] == Err(r.error);
      FixedRoundOk(([first] + more)[i]);
      r
    else
      forall i | 0 <= i < 1 + |more|
        ensures TicksOffered(([first] + more)[i])
      {
        FixedRoundOk(([first] + more)[i]);
      }
      r
  }

  /** Both loops stop at the same round, and when they finish they define the same benchmarks in the same order. */
  lemma DefineRunsAgree(first: Prompt, more: seq<Prompt>)
    ensures DefineRuns(first, more).Ok? <==> DefineRunsFixed(first, more).Ok?
    ensures DefineRuns(first, more).Ok? ==> forall i :: 0 <= i < 1 + |more| ==>
              DefineRuns(first, more).value[i].benchmark == DefineRunsFixed(first, more).value[i].benchmark
  {
    var all := [first] + more;
    forall i | 0 <= i < |all|
      ensures |Selected(all[i].presets, all[i].chosen)| > 0 <==> TicksOffered(all[i])
    {
      var sel := Selected(all[i].presets, all[i].chosen);
      if |sel| > 0 {
        assert sel[0] in sel;
      }
    }
  }

  // ---------------------------------------------------------------------------
  // Saving the definition
  // ---------------------------------------------------------------------------

  /** Folder, relative to the working directory, that suite definitions are saved to. */
  const SuitesDir := "suites"

  /** `.json` is appended to a file name unless it already ends with it. */
  function Normalise(filename: string): (r: string)
    ensures Text.EndsWith(r, ".json")
    ensures Text.StartsWith(r, filename)
    ensures |r| <= |filename| + 5
  {
    if Text.EndsWith(filename, ".json") then filename else filename + ".json"
  }

  /** Normalising twice is normalising once, and a name is left alone exactly when it already ends in `.json`. */
  lemma NormaliseIdempotent(filename: string)
    ensures Normalise(Normalise(filename)) == Normalise(filename)
    ensures Normalise(filename) == filename <==> Text.EndsWith(filename, ".json")
  {
  }

  /** Where a file name given at the prompt is saved. */
  function SuitePath(filename: string): string {
    PosixPath.Join(SuitesDir, Normalise(filename))
  }

  /** One answer to the file-name prompt, and the answer to "overwrite?" should it be asked. */
  datatype Attempt = Attempt(filename: string, overwrite: bool)

  /** An answer ends the loop when it is non-empty and names a new file or the user agrees to overwrite. */
  predicate Accepted(a: Attempt, present: string -> bool) {
    a.filename != "" && (!present(SuitePath(a.filename)) || a.overwrite)
  }

  /**
   * The file-name loop of `suite_definition_tool`: empty names are asked
   * again, `.json` is appended when missing, and an existing file is only
   * replaced after confirmation. Returns the path written and the index of
   * the answer that was used; `None` when the answers run out first.
   */
  method SaveLoop(attempts: seq<Attempt>, present: string -> bool) returns (saved: Option<string>, used: nat)
    ensures saved.None? <==> forall k :: 0 <= k < |attempts| ==> !Accepted(attempts[k], present)
    ensures saved.Some? ==> used < |attempts| && Accepted(attempts[used], present)
    ensures saved.Some? ==> forall k :: 0 <= k < used ==> !Accepted(attempts[k], present)
    ensures saved.Some? ==> saved.value == SuitePath(attempts[used].filename)
    ensures saved.Some? ==> Text.EndsWith(saved.value, ".json")
  {
    var i := 0;
    while i < |attempts|
      invariant 0 <= i <= |attempts|
      invariant forall k :: 0 <= k < i ==> !Accepted(attempts[k], present)
    {
      var filename := attempts[i].filename;
      if filename == "" {
        i := i + 1;
        continue;
      }
      if !Text.EndsWith(filename, ".json") {
        filename := filename + ".json";
      }
      var path := PosixPath.Join(SuitesDir, filename);
      if present(path) && !attempts[i].overwrite {
        i := i + 1;
        continue;
      }
      Text.EndsWithTrans(path, filename, ".json");
      return Some(path), i;
    }
    return None, |attempts|;
  }
}
