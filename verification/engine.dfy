/**
 * The benchmark run engine of the command-line interface: the drain loop that
 * copies a task's output into its log, the abort rules, and the order in
 * which setup tasks, preset tasks and stats reads happen.
 */
module Engine {
  import opened Wrappers
  import Text
  import Dicts
  import PosixPath
  import Runnables

  // ---------------------------------------------------------------------------
  // The drain loop
  // ---------------------------------------------------------------------------

  datatype Stream = Stdout | Stderr

  /** One `readline()` on a stream the selector reported ready; empty data is end of file. */
  datatype Read = Read(stream: Stream, data: string)

  /** The loop's bookkeeping: the streams still registered and the text logged so far. */
  datatype Drain = Drain(open: set<Stream>, log: string)

  const Fresh := Drain({Stdout, Stderr}, "")

  /** What one stdout line adds to the log: the line with exactly one trailing newline. */
  function LogLine(data: string): (r: string)
    ensures Text.StartsWith(r, data) && Text.EndsWith(r, "\n")
    ensures |r| <= |data| + 1
    ensures Text.EndsWith(data, "\n") ==> r == data
  {
    if Text.EndsWith(data, "\n") then data else data + "\n"
  }

  /** Adding the newline twice adds nothing more. */
  lemma LogLineIdempotent(data: string)
    ensures LogLine(LogLine(data)) == LogLine(data)
  {
  }

  /**
   * One iteration of the inner loop: a stream that is no longer registered is
   * never reported by the selector, end of file unregisters the stream, and a
   * stdout line is appended to the log.
   */
  function Step(d: Drain, e: Read): (r: Drain)
    ensures r.open <= d.open
  {
    if e.stream !in d.open then d
    else if e.data == "" then d.(open := d.open - {e.stream})
    else if e.stream == Stdout then d.(log := d.log + LogLine(e.data))
    else d
  }

  /** The loop `while reading`: it stops as soon as no stream is registered. */
  function Run(d: Drain, events: seq<Read>): (r: Drain)
    ensures r.open <= d.open
    decreases |events|
  {
    if d.open == {} || |events| == 0 then d
    else Run(Step(d, events[0]), events[1..])
  }

  /** `s` reaches end of file somewhere in `events`. */
  predicate Closes(events: seq<Read>, s: Stream) {
    Read(s, "") in events
  }

  /** Reference log: every stdout line up to stdout's end of file, each newline-terminated. */
  function StdoutLog(events: seq<Read>): string
    decreases |events|
  {
    if |events| == 0 then ""
    else if events[0].stream == Stderr then StdoutLog(events[1..])
    else if events[0].data == "" then ""
    else LogLine(events[0].data) + StdoutLog(events[1..])
  }

  /** The loop ends exactly when every registered stream reaches end of file. */
  lemma {:induction false} RunClosesIff(d: Drain, events: seq<Read>)
    ensures Run(d, events).open == {} <==> forall s :: s in d.open ==> Closes(events, s)
    decreases |events|
  {
    if d.open == {} {
    } else if |events| == 0 {
      var s :| s in d.open;
      assert !Closes(events, s);
    } else {
      var e := events[0];
      var rest := events[1..];
      RunClosesIff(Step(d, e), rest);
      assert events == [e] + rest;
      forall s | s in d.open && Closes(rest, s)
        ensures Closes(events, s)
      {
        assert Read(s, "") in rest;
      }
      if e.stream in d.open && e.data == "" {
        assert Closes(events, e.stream);
      }
      if Run(d, events).open != {} {
        var s :| s in Run(d, events).open;
        assert s in Step(d, e).open;
        if Closes(events, s) {
          assert Closes(rest, s);
        }
      }
    }
  }

  /** The loop's log is the reference log, while stdout is still registered. */
  lemma {:induction false} RunLog(d: Drain, events: seq<Read>)
    ensures Run(d, events).log == d.log + (if Stdout in d.open then StdoutLog(events) else "")
    decreases |events|
  {
    if d.open != {} && |events| > 0 {
      var e := events[0];
      RunLog(Step(d, e), events[1..]);
      if Stdout in d.open && e.stream == Stdout && e.data != "" {
        assert d.log + LogLine(e.data) + StdoutLog(events[1..])
            == d.log + (LogLine(e.data) + StdoutLog(events[1..]));
      }
    }
  }

  /**
   * The drain loop of `_run_task` over a given interleaving of reads: it
   * returns the text appended to the log and whether the loop ended.
   */
  method DrainLoop(events: seq<Read>) returns (log: string, finished: bool)
    ensures log == StdoutLog(events)
    ensures finished <==> Closes(events, Stdout) && Closes(events, Stderr)
  {
    var open := {Stdout, Stderr};
    log := "";
    var reading := true;
    var i := 0;
    while reading && i < |events|
      invariant 0 <= i <= |events|
      invariant reading <==> open != {}
      invariant Run(Drain(open, log), events[i..]) == Run(Fresh, events)
    {
      var e := events[i];
      assert events[i..] == [e] + events[i + 1..];
      if e.stream in open {
        if e.data == "" {
          open := open - {e.stream};
          if open == {} {
            reading := false;
          }
        } else if e.stream == Stdout {
          log := log + LogLine(e.data);
        }
      }
      i := i + 1;
    }
    finished := !reading;
    RunLog(Fresh, events);
    RunClosesIff(Fresh, events);
  }

  // ---------------------------------------------------------------------------
  // Tasks and their logs
  // ---------------------------------------------------------------------------

  /** What happened when the process was started: an exception, or its output and return code. */
  datatype Spawn = SpawnFailed(reason: string) | Exited(output: seq<Read>, code: int)

  datatype Number = Int(i: int) | Float(x: real)

  type StatTable = Dicts.Dict<string, Number>

  /** `get_stats` on a log file's content: the stats, or a JSON decode or validation error. */
  datatype StatsRead = Parsed(stats: StatTable) | DecodeFailed

  /**
   * The world a run sees: the base environment and `abspath` for the process
   * descriptor, process creation, stats parsing, and the run's log directory.
   */
  datatype World = World(
    base: map<string, string>,
    abspath: string -> string,
    spawn: Runnables.PopenArgs -> Spawn,
    getStats: string -> StatsRead,
    logDir: string)

  datatype RunError =
    | TaskError        // the task did not start
    | TaskFailed(code: int)
    | ValidationError(preset: string)
    | LogMissing(preset: string)   // the preset's log was never created; `open` raises
    | NeverEnds        // the output never reaches end of file on both streams

  /** The status the process exits with: `_fail` ends in `Exit(1)`; the other two never reach it. */
  function ExitStatus(e: RunError): Option<int> {
    if e.TaskError? || e.TaskFailed? || e.ValidationError? then Some(1) else None
  }

  /** The errors a task can end in. */
  predicate TaskFault(e: RunError) {
    e.TaskError? || e.TaskFailed? || e.NeverEnds?
  }

  datatype Action = Ran(log: string, args: seq<string>) | ReadStats(preset: string)

  datatype RunState = RunState(
    logs: map<string, string>,
    trace: seq<Action>,
    stats: Dicts.Dict<string, StatTable>)

  datatype Outcome = Outcome(state: RunState, error: Option<RunError>)

  /** `_get_log_path`: `<log_dir>/<identifier>.log` */
  function LogPath(logDir: string, id: string): (r: string)
    ensures !PosixPath.IsAbs(id) ==> Text.StartsWith(r, logDir) && Text.EndsWith(r, id + ".log")
    ensures PosixPath.IsAbs(id) ==> r == id + ".log"
  {
    LogNameRooted(id);
    PosixPath.Join(logDir, id + ".log")
  }

  /** The log file name is absolute exactly when the identifier is. */
  lemma LogNameRooted(id: string)
    ensures PosixPath.IsAbs(id + ".log") <==> PosixPath.IsAbs(id)
  {
    if |id| == 0 {
      assert id + ".log" == ".log" && ".log"[..1] == ".";
    } else {
      assert (id + ".log")[..1] == id[..1];
    }
  }

  /** A relative name stays relative with a suffix. */
  lemma SuffixRelative(a: string, suffix: string)
    requires !PosixPath.IsAbs(a) && !PosixPath.IsAbs(suffix)
    ensures !PosixPath.IsAbs(a + suffix)
  {
    if |a| == 0 {
      assert a + suffix == suffix;
    } else {
      assert (a + suffix)[..1] == a[..1];
    }
  }

  /** Different identifiers log to different files. */
  lemma LogPathInjective(logDir: string, a: string, b: string)
    requires !PosixPath.IsAbs(a) && !PosixPath.IsAbs(b)
    ensures LogPath(logDir, a) == LogPath(logDir, b) ==> a == b
  {
    assert !PosixPath.IsAbs(".log") by {
      assert ".log"[..1] == ".";
    }
    SuffixRelative(a, ".log");
    SuffixRelative(b, ".log");
    if LogPath(logDir, a) == LogPath(logDir, b) {
      PosixPath.JoinInjective(logDir, a + ".log", b + ".log");
      assert a == (a + ".log")[..|a|];
      assert b == (b + ".log")[..|b|];
    }
  }

  /** Setup output and a preset's output never share a file. */
  lemma SetupLogSeparate(logDir: string, preset: string)
    ensures LogPath(logDir, "setup") != LogPath(logDir, "run_" + preset)
  {
    assert "setup"[..1] == "s";
    assert ("run_" + preset)[..1] == "r";
    LogPathInjective(logDir, "setup", "run_" + preset);
    assert "setup"[0] != ("run_" + preset)[0];
  }

  /** Appending to a file opened with mode "a": it is created if missing. */
  function Append(logs: map<string, string>, path: string, text: string): (r: map<string, string>)
    ensures r.Keys == logs.Keys + {path}
    ensures r[path] == Existing(logs, path) + text
    ensures forall p :: p in logs && p != path ==> r[p] == logs[p]
  {
    logs[path := Existing(logs, path) + text]
  }

  function Existing(logs: map<string, string>, path: string): string {
    if path in logs then logs[path] else ""
  }

  /**
   * Starting a task: building its process descriptor can raise (a missing
   * `PATH`), and so can process creation.
   */
  function Launch(w: World, task: Runnables.Runnable): Spawn {
    match Runnables.IntoPopenArgs(task, w.base, w.abspath)
    case Err(e) => SpawnFailed("KeyError")
    case Ok(p) => w.spawn(p)
  }

  /** A task whose `PATH` cannot be extended never starts. */
  lemma MissingPathNeverStarts(w: World, task: Runnables.Runnable)
    requires |task.path| > 0 && "PATH" !in w.base
    ensures Launch(w, task).SpawnFailed?
  {
  }

  /** What a task that ran to completion appends to its log; nothing when it did not start. */
  function TaskLog(w: World, task: Runnables.Runnable): string {
    match Launch(w, task)
    case SpawnFailed(_) => ""
    case Exited(output, _) => StdoutLog(output)
  }

  /**
   * `_run_task_or_err`: an exception while starting the task is a
   * `BenchmarkTaskError`, a non-zero return code a `BenchmarkTaskFailed`;
   * both end in `Exit(1)`.
   */
  function RunTask(w: World, task: Runnables.Runnable, path: string, st: RunState): (r: Outcome)
    ensures r.state.trace == st.trace + [Ran(path, task.args)]
    ensures r.state.stats == st.stats
    ensures r.error.None? ==> r.state.logs == Append(st.logs, path, TaskLog(w, task))
    ensures r.error.Some? ==> TaskFault(r.error.value)
    ensures r.error.Some? ==> ExitStatus(r.error.value) == Some(1) || r.error.value == NeverEnds
    ensures r.error == Some(TaskError) <==> Launch(w, task).SpawnFailed?
    ensures r.error.Some? && r.error.value.TaskFailed? ==> r.error.value.code != 0
    ensures r.error.None? <==> TaskSucceeds(w, task)
  {
    var st1 := st.(trace := st.trace + [Ran(path, task.args)]);
    match Launch(w, task)
    case SpawnFailed(_) => Outcome(st1, Some(TaskError))
    case Exited(output, code) =>
      var d := Run(Fresh, output);
      RunClosesIff(Fresh, output);
      if d.open != {} then Outcome(st1, Some(NeverEnds))
      else
        RunLog(Fresh, output);
        assert d.log == StdoutLog(output);
        var st2 := st1.(logs := Append(st1.logs, path, d.log));
        if code != 0 then Outcome(st2, Some(TaskFailed(code))) else Outcome(st2, None)
  }

  /** Concatenated logs of a task list that ran to completion. */
  function TasksLog(w: World, tasks: seq<Runnables.Runnable>): string
    decreases |tasks|
  {
    if |tasks| == 0 then "" else TaskLog(w, tasks[0]) + TasksLog(w, tasks[1..])
  }

  /** The actions a task list performs when all of its tasks succeed. */
  function TasksPlan(path: string, tasks: seq<Runnables.Runnable>): (r: seq<Action>)
    ensures |r| == |tasks|
    ensures forall i :: 0 <= i < |tasks| ==> r[i] == Ran(path, tasks[i].args)
    decreases |tasks|
  {
    if |tasks| == 0 then [] else [Ran(path, tasks[0].args)] + TasksPlan(path, tasks[1..])
  }

  /** The task starts, its output reaches end of file on both streams, and it returns 0. */
  predicate TaskSucceeds(w: World, task: Runnables.Runnable) {
    var l := Launch(w, task);
    l.Exited? && l.code == 0 && Closes(l.output, Stdout) && Closes(l.output, Stderr)
  }

  /** How many tasks of the list are started: all of them, or up to and including the first failure. */
  function Attempted(w: World, tasks: seq<Runnables.Runnable>): (n: nat)
    ensures n <= |tasks|
    ensures n < |tasks| ==> n > 0 && !TaskSucceeds(w, tasks[n - 1])
    ensures forall i :: 0 <= i < n - 1 ==> TaskSucceeds(w, tasks[i])
    decreases |tasks|
  {
    if |tasks| == 0 then 0
    else if !TaskSucceeds(w, tasks[0]) then 1
    else 1 + Attempted(w, tasks[1..])
  }

  lemma TasksPlanCons(path: string, tasks: seq<Runnables.Runnable>, n: nat)
    requires 0 < n <= |tasks|
    ensures TasksPlan(path, tasks[..n]) == [Ran(path, tasks[0].args)] + TasksPlan(path, tasks[1..][..n - 1])
  {
    assert tasks[..n][1..] == tasks[1..][..n - 1];
  }

  lemma AppendTwice(logs: map<string, string>, path: string, a: string, b: string)
    ensures Append(Append(logs, path, a), path, b) == Append(logs, path, a + b)
  {
    assert Existing(logs, path) + a + b == Existing(logs, path) + (a + b);
  }

  /** Tasks run in order into one log file, and the first failure stops the list. */
  function RunTasks(w: World, tasks: seq<Runnables.Runnable>, path: string, st: RunState): (r: Outcome)
    ensures r.state.stats == st.stats
    ensures r.error.None? <==> forall i :: 0 <= i < |tasks| ==> TaskSucceeds(w, tasks[i])
    ensures r.error.Some? ==> TaskFault(r.error.value)
    ensures r.error.Some? ==> ExitStatus(r.error.value) == Some(1) || r.error.value == NeverEnds
    decreases |tasks|
  {
    if |tasks| == 0 then Outcome(st, None)
    else
      var first := RunTask(w, tasks[0], path, st);
      if first.error.Some? then first
      else
        var r := RunTasks(w, tasks[1..], path, first.state);
        assert forall i :: 1 <= i < |tasks| ==> tasks[i] == tasks[1..][i - 1];
        r
  }

  /** Unfolding `RunTasks` by one task. */
  lemma RunTasksStep(w: World, tasks: seq<Runnables.Runnable>, path: string, st: RunState)
    requires |tasks| > 0
    ensures var first := RunTask(w, tasks[0], path, st);
      RunTasks(w, tasks, path, st)
      == if first.error.Some? then first else RunTasks(w, tasks[1..], path, first.state)
  {
  }

  /** The trace holds the tasks of the list up to and including the first one that fails. */
  lemma {:induction false} RunTasksTrace(w: World, tasks: seq<Runnables.Runnable>, path: string, st: RunState)
    ensures RunTasks(w, tasks, path, st).state.trace == st.trace + TasksPlan(path, tasks[..Attempted(w, tasks)])
    decreases |tasks|
  {
    if |tasks| == 0 {
      assert st.trace + TasksPlan(path, tasks[..0]) == st.trace;
    } else {
      var first := RunTask(w, tasks[0], path, st);
      var n := Attempted(w, tasks);
      RunTasksStep(w, tasks, path, st);
      TasksPlanCons(path, tasks, n);
      if first.error.Some? {
        assert n == 1;
        assert TasksPlan(path, tasks[1..][..0]) == [];
      } else {
        RunTasksTrace(w, tasks[1..], path, first.state);
        TraceStep(st.trace, Ran(path, tasks[0].args), TasksPlan(path, tasks[1..][..n - 1]));
      }
    }
  }

  lemma TraceStep2(t: seq<Action>, a: seq<Action>, rest: seq<Action>)
    ensures (t + a) + rest == t + (a + rest)
  {
  }

  lemma TraceStep(t: seq<Action>, a: Action, rest: seq<Action>)
    ensures (t + [a]) + rest == t + ([a] + rest)
  {
  }


  /** All tasks of a list that completes append to the same file, in order. */
  lemma {:induction false} RunTasksLog(w: World, tasks: seq<Runnables.Runnable>, path: string, st: RunState)
    requires RunTasks(w, tasks, path, st).error.None?
    ensures |tasks| == 0 ==> RunTasks(w, tasks, path, st).state.logs == st.logs
    ensures |tasks| > 0 ==> RunTasks(w, tasks, path, st).state.logs == Append(st.logs, path, TasksLog(w, tasks))
    decreases |tasks|
  {
    if |tasks| > 0 {
      var first := RunTask(w, tasks[0], path, st);
      RunTasksLog(w, tasks[1..], path, first.state);
      var a := TaskLog(w, tasks[0]);
      var b := TasksLog(w, tasks[1..]);
      AppendTwice(st.logs, path, a, b);
      assert |tasks| == 1 ==> a + b == a;
    }
  }


  /** The trace of a prefix of the tasks is a prefix of the whole list's trace. */
  lemma TasksPlanPrefix(path: string, tasks: seq<Runnables.Runnable>, n: nat)
    requires n <= |tasks|
    ensures IsPrefix(TasksPlan(path, tasks[..n]), TasksPlan(path, tasks))
  {
    assert TasksPlan(path, tasks)[..n] == TasksPlan(path, tasks[..n]);
  }

  predicate IsPrefix<T(==)>(a: seq<T>, b: seq<T>) {
    |a| <= |b| && b[..|a|] == a
  }

  /** Whatever happens, the trace of a task list follows the list's plan. */
  lemma RunTasksFollowsPlan(w: World, tasks: seq<Runnables.Runnable>, path: string, st: RunState)
    ensures var r := RunTasks(w, tasks, path, st);
      && |st.trace| <= |r.state.trace|
      && IsPrefix(r.state.trace, st.trace + TasksPlan(path, tasks))
      && (r.error.None? ==> r.state.trace == st.trace + TasksPlan(path, tasks))
  {
    var n := Attempted(w, tasks);
    RunTasksTrace(w, tasks, path, st);
    PlanPrefix(st.trace, path, tasks, n);
    if RunTasks(w, tasks, path, st).error.None? {
      AttemptedAll(w, tasks);
    }
  }

  /** When every task succeeds, every task is attempted. */
  lemma {:induction false} AttemptedAll(w: World, tasks: seq<Runnables.Runnable>)
    requires forall i :: 0 <= i < |tasks| ==> TaskSucceeds(w, tasks[i])
    ensures Attempted(w, tasks) == |tasks|
    decreases |tasks|
  {
    if |tasks| > 0 {
      assert forall i :: 0 <= i < |tasks| - 1 ==> tasks[1..][i] == tasks[i + 1];
      AttemptedAll(w, tasks[1..]);
    }
  }

  /** After a common start, the plan of the first `n` tasks is a prefix of the whole plan. */
  lemma PlanPrefix(t: seq<Action>, path: string, tasks: seq<Runnables.Runnable>, n: nat)
    requires n <= |tasks|
    ensures |t| <= |t + TasksPlan(path, tasks[..n])|
    ensures IsPrefix(t + TasksPlan(path, tasks[..n]), t + TasksPlan(path, tasks))
    ensures n == |tasks| ==> t + TasksPlan(path, tasks[..n]) == t + TasksPlan(path, tasks)
  {
    TasksPlanPrefix(path, tasks, n);
    PrefixAfter(t, TasksPlan(path, tasks[..n]), TasksPlan(path, tasks));
    if n == |tasks| {
      assert tasks[..n] == tasks;
    }
  }

  /** A common start keeps a prefix a prefix. */
  lemma PrefixAfter<T>(t: seq<T>, part: seq<T>, whole: seq<T>)
    requires IsPrefix(part, whole)
    ensures IsPrefix(t + part, t + whole) && |t| <= |t + part|
  {
    assert (t + whole)[..|t + part|] == t + part;
  }

  // ---------------------------------------------------------------------------
  // Presets and the whole run
  // ---------------------------------------------------------------------------

  /** A preset of the run with the tasks `BenchmarkRun.run()` gives for it. */
  datatype PresetRun = PresetRun(name: string, tasks: seq<Runnables.Runnable>)

  /** The setup tasks and the presets of one run, in order. */
  datatype Plan = Plan(setup: seq<Runnables.Runnable>, presets: seq<PresetRun>)

  function PresetLog(logDir: string, name: string): string {
    LogPath(logDir, "run_" + name)
  }

  /**
   * One preset: its tasks, then its log is opened and `get_stats` decodes it
   * into `stats[preset.name]`. A preset without tasks has no log of its own
   * unless an earlier preset of the same name wrote one.
   */
  function RunPreset(w: World, p: PresetRun, st: RunState): Outcome
  {
    var path := PresetLog(w.logDir, p.name);
    var ran := RunTasks(w, p.tasks, path, st);
    if ran.error.Some? then ran
    else
      var st1 := ran.state.(trace := ran.state.trace + [ReadStats(p.name)]);
      if path !in st1.logs then Outcome(st1, Some(LogMissing(p.name)))
      else
        match w.getStats(st1.logs[path])
        case DecodeFailed => Outcome(st1, Some(ValidationError(p.name)))
        case Parsed(t) =>
          Outcome(st1.(stats := Dicts.Put(st1.stats, p.name, t)), None)
  }

  /**
   * A successful preset stores the decoded content of its log under its name,
   * adding the name to the keys; a decode failure names the preset.
   */
  lemma RunPresetStats(w: World, p: PresetRun, st: RunState)
    ensures var r := RunPreset(w, p, st);
      && (Dicts.UniqueKeys(st.stats) ==> Dicts.UniqueKeys(r.state.stats))
      && (r.error.None? ==> Dicts.KeySet(r.state.stats) == Dicts.KeySet(st.stats) + {p.name})
      && (r.error.None? ==> |r.state.stats| <= |st.stats| + 1)
      && (r.error.None? ==>
            var path := PresetLog(w.logDir, p.name);
            path in r.state.logs && w.getStats(r.state.logs[path]).Parsed?
            && Dicts.Get(r.state.stats, p.name) == w.getStats(r.state.logs[path]).stats)
      && (r.error.Some? && r.error.value.ValidationError? ==> r.error.value.preset == p.name)
  {
    var path := PresetLog(w.logDir, p.name);
    var ran := RunTasks(w, p.tasks, path, st);
    if ran.error.None? && path in ran.state.logs && w.getStats(ran.state.logs[path]).Parsed? && Dicts.UniqueKeys(st.stats) {
      Dicts.PutKeepsUnique(st.stats, p.name, w.getStats(ran.state.logs[path]).stats);
    }
  }

  /**
   * A preset succeeds exactly when all its tasks do, its log exists, and the
   * log decodes to stats.
   */
  lemma RunPresetSucceeds(w: World, p: PresetRun, st: RunState)
    ensures RunPreset(w, p, st).error.None? <==>
      && (forall i :: 0 <= i < |p.tasks| ==> TaskSucceeds(w, p.tasks[i]))
      && (|p.tasks| > 0 || PresetLog(w.logDir, p.name) in st.logs)
      && (var path := PresetLog(w.logDir, p.name);
          var logs := RunTasks(w, p.tasks, path, st).state.logs;
          path in logs && w.getStats(logs[path]).Parsed?)
  {
    var path := PresetLog(w.logDir, p.name);
    if RunTasks(w, p.tasks, path, st).error.None? {
      RunTasksLog(w, p.tasks, path, st);
    }
  }

  /** The actions a preset performs when it succeeds. */
  function PresetPlan(logDir: string, p: PresetRun): seq<Action> {
    TasksPlan(PresetLog(logDir, p.name), p.tasks) + [ReadStats(p.name)]
  }

  lemma RunPresetFollowsPlan(w: World, p: PresetRun, st: RunState)
    ensures var r := RunPreset(w, p, st);
      && |st.trace| <= |r.state.trace|
      && IsPrefix(r.state.trace, st.trace + PresetPlan(w.logDir, p))
      && (r.error.None? ==> r.state.trace == st.trace + PresetPlan(w.logDir, p))
  {
    var path := PresetLog(w.logDir, p.name);
    var ran := RunTasks(w, p.tasks, path, st);
    var tasksDone := st.trace + TasksPlan(path, p.tasks);
    RunPresetTrace(w, p, st);
    RunTasksFollowsPlan(w, p.tasks, path, st);
    TraceStep2(st.trace, TasksPlan(path, p.tasks), [ReadStats(p.name)]);
    if ran.error.Some? {
      PrefixExtend(ran.state.trace, tasksDone, [ReadStats(p.name)]);
    }
  }

  /** A preset's trace: its tasks' trace, then the stats read once the tasks succeed. */
  lemma RunPresetTrace(w: World, p: PresetRun, st: RunState)
    ensures var ran := RunTasks(w, p.tasks, PresetLog(w.logDir, p.name), st);
      var r := RunPreset(w, p, st);
      && (ran.error.Some? ==> r == ran)
      && (ran.error.None? ==> r.state.trace == ran.state.trace + [ReadStats(p.name)])
  {
  }

  /** The names of the presets. */
  function Names(presets: seq<PresetRun>): (r: set<string>)
    ensures forall i :: 0 <= i < |presets| ==> presets[i].name in r
    ensures forall n :: n in r ==> exists i :: 0 <= i < |presets| && presets[i].name == n
  {
    set i | 0 <= i < |presets| :: presets[i].name
  }

  /** The names of a non-empty list: the first one and those of the rest. */
  lemma NamesCons(presets: seq<PresetRun>)
    requires |presets| > 0
    ensures Names(presets) == {presets[0].name} + Names(presets[1..])
  {
    assert forall i :: 0 < i < |presets| ==> presets[i] == presets[1..][i - 1];
  }

  /** Presets run in order; the first failure ends the run. */
  function RunPresets(w: World, presets: seq<PresetRun>, st: RunState): Outcome
    decreases |presets|
  {
    if |presets| == 0 then Outcome(st, None)
    else
      var first := RunPreset(w, presets[0], st);
      if first.error.Some? then first
      else
        var r := RunPresets(w, presets[1..], first.state);
        r
  }

  /** The actions of all presets in order. */
  function PresetsPlan(logDir: string, presets: seq<PresetRun>): seq<Action>
    decreases |presets|
  {
    if |presets| == 0 then [] else PresetPlan(logDir, presets[0]) + PresetsPlan(logDir, presets[1..])
  }

  lemma PrefixExtend<T>(a: seq<T>, b: seq<T>, c: seq<T>)
    requires IsPrefix(a, b)
    ensures IsPrefix(a, b + c)
  {
    assert (b + c)[..|a|] == b[..|a|];
  }

  lemma RunPresetsStep(w: World, presets: seq<PresetRun>, st: RunState)
    requires |presets| > 0
    ensures var first := RunPreset(w, presets[0], st);
      RunPresets(w, presets, st)
      == if first.error.Some? then first else RunPresets(w, presets[1..], first.state)
  {
  }

  /**
   * A successful run has one stats entry per preset name, a repeated name
   * keeping its first position; keys stay unique.
   */
  lemma RunPresetsStats(w: World, presets: seq<PresetRun>, st: RunState)
    ensures var r := RunPresets(w, presets, st);
      && (Dicts.UniqueKeys(st.stats) ==> Dicts.UniqueKeys(r.state.stats))
      && (r.error.None? ==> Dicts.KeySet(r.state.stats) == Dicts.KeySet(st.stats) + Names(presets))
      && (r.error.None? ==> |r.state.stats| <= |st.stats| + |presets|)
  {
    if Dicts.UniqueKeys(st.stats) {
      RunPresetsUnique(w, presets, st);
    }
    RunPresetsKeys(w, presets, st);
  }

  /** Set union regrouped, stated apart so the solver sees only sets. */
  lemma SetRegroup<T>(a: set<T>, b: set<T>, c: set<T>)
    ensures (a + b) + c == a + (b + c)
  {
  }

  /** Whatever happens, a run keeps the stats keys unique. */
  lemma {:induction false} RunPresetsUnique(w: World, presets: seq<PresetRun>, st: RunState)
    requires Dicts.UniqueKeys(st.stats)
    ensures Dicts.UniqueKeys(RunPresets(w, presets, st).state.stats)
    decreases |presets|
  {
    if |presets| > 0 {
      RunPresetsStep(w, presets, st);
      RunPresetStats(w, presets[0], st);
      var first := RunPreset(w, presets[0], st);
      if first.error.None? {
        RunPresetsUnique(w, presets[1..], first.state);
      }
    }
  }

  /** A successful run adds the preset names as keys, at most one entry per preset. */
  lemma {:induction false} RunPresetsKeys(w: World, presets: seq<PresetRun>, st: RunState)
    ensures var r := RunPresets(w, presets, st);
      r.error.None? ==> Dicts.KeySet(r.state.stats) == Dicts.KeySet(st.stats) + Names(presets)
                        && |r.state.stats| <= |st.stats| + |presets|
    decreases |presets|
  {
    if |presets| > 0 {
      NamesCons(presets);
      RunPresetsStep(w, presets, st);
      RunPresetStats(w, presets[0], st);
      var first := RunPreset(w, presets[0], st);
      if first.error.None? {
        RunPresetsKeys(w, presets[1..], first.state);
        SetRegroup(Dicts.KeySet(st.stats), {presets[0].name}, Names(presets[1..]));
      }
    }
  }

  lemma {:induction false} RunPresetsFollowPlan(w: World, presets: seq<PresetRun>, st: RunState)
    ensures var r := RunPresets(w, presets, st);
      && |st.trace| <= |r.state.trace|
      && IsPrefix(r.state.trace, st.trace + PresetsPlan(w.logDir, presets))
      && (r.error.None? ==> r.state.trace == st.trace + PresetsPlan(w.logDir, presets))
    decreases |presets|
  {
    if |presets| == 0 {
      assert st.trace + [] == st.trace;
    } else {
      var head := PresetPlan(w.logDir, presets[0]);
      var tail := PresetsPlan(w.logDir, presets[1..]);
      assert PresetsPlan(w.logDir, presets) == head + tail;
      TraceStep2(st.trace, head, tail);
      var first := RunPreset(w, presets[0], st);
      RunPresetsStep(w, presets, st);
      RunPresetFollowsPlan(w, presets[0], st);
      if first.error.Some? {
        PrefixExtend(first.state.trace, st.trace + head, tail);
      } else {
        RunPresetsFollowPlan(w, presets[1..], first.state);
      }
    }
  }

  /** The initial state: the log directory was just created, so no log exists yet. */
  const Empty := RunState(map[], [], [])

  /**
   * `CliBenchmarkRun._start`: every setup task into the "setup" log, then
   * every preset; the result is the stats by preset name.
   */
  function Start(w: World, plan: Plan): (r: Outcome)
    ensures r.error.None? ==> Dicts.KeySet(r.state.stats) == Names(plan.presets)
    ensures r.error.None? ==> Dicts.UniqueKeys(r.state.stats) && |r.state.stats| <= |plan.presets|
  {
    var setup := RunTasks(w, plan.setup, LogPath(w.logDir, "setup"), Empty);
    if setup.error.Some? then setup
    else
      RunPresetsStats(w, plan.presets, setup.state);
      assert Dicts.KeySet(setup.state.stats) == {};
      RunPresets(w, plan.presets, setup.state)
  }

  /** The reference order: every setup task, then each preset's tasks followed by its stats read. */
  function Planned(logDir: string, plan: Plan): seq<Action> {
    TasksPlan(LogPath(logDir, "setup"), plan.setup) + PresetsPlan(logDir, plan.presets)
  }

  /**
   * The run follows the reference order: a successful run performs exactly
   * the planned actions, a failed one stops partway through them.
   */
  lemma StartFollowsPlan(w: World, plan: Plan)
    ensures IsPrefix(Start(w, plan).state.trace, Planned(w.logDir, plan))
    ensures Start(w, plan).error.None? ==> Start(w, plan).state.trace == Planned(w.logDir, plan)
  {
    var setupLog := LogPath(w.logDir, "setup");
    RunTasksFollowsPlan(w, plan.setup, setupLog, Empty);
    var setup := RunTasks(w, plan.setup, setupLog, Empty);
    var tail := PresetsPlan(w.logDir, plan.presets);
    assert [] + TasksPlan(setupLog, plan.setup) == TasksPlan(setupLog, plan.setup);
    if setup.error.Some? {
      PrefixExtend(setup.state.trace, TasksPlan(setupLog, plan.setup), tail);
    } else {
      RunPresetsFollowPlan(w, plan.presets, setup.state);
    }
  }

  // ---------------------------------------------------------------------------
  // The stats table
  // ---------------------------------------------------------------------------

  type Row = (string, string, Number)

  /** One preset's rows, in its stats' order. */
  function PresetRows(preset: string, t: StatTable): (rows: seq<Row>)
    ensures |rows| == |t|
    ensures forall j :: 0 <= j < |t| ==> rows[j] == (preset, t[j].0, t[j].1)
  {
    seq(|t|, j requires 0 <= j < |t| => (preset, t[j].0, t[j].1))
  }

  /** `print_stats` in table mode: the (preset, stat, value) rows, grouped by preset in order. */
  function Rows(stats: Dicts.Dict<string, StatTable>): seq<Row>
    decreases |stats|
  {
    if |stats| == 0 then [] else PresetRows(stats[0].0, stats[0].1) + Rows(stats[1..])
  }

  function StatCount(stats: Dicts.Dict<string, StatTable>): nat
    decreases |stats|
  {
    if |stats| == 0 then 0 else |stats[0].1| + StatCount(stats[1..])
  }

  /** One row per stat. */
  lemma {:induction false} RowsCount(stats: Dicts.Dict<string, StatTable>)
    ensures |Rows(stats)| == StatCount(stats)
    decreases |stats|
  {
    if |stats| > 0 {
      RowsCount(stats[1..]);
    }
  }

  /** A row is in the table exactly when it is some preset's stat with its value. */
  lemma {:induction false} RowsMembership(stats: Dicts.Dict<string, StatTable>, row: Row)
    ensures row in Rows(stats) <==>
      exists i, j :: 0 <= i < |stats| && 0 <= j < |stats[i].1| && row == (stats[i].0, stats[i].1[j].0, stats[i].1[j].1)
    decreases |stats|
  {
    if |stats| > 0 {
      RowsMembership(stats[1..], row);
      var head := PresetRows(stats[0].0, stats[0].1);
      if row in head {
        var j :| 0 <= j < |head| && head[j] == row;
        assert row == (stats[0].0, stats[0].1[j].0, stats[0].1[j].1);
      }
      if row in Rows(stats[1..]) {
        var i, j :| 0 <= i < |stats[1..]| && 0 <= j < |stats[1..][i].1|
          && row == (stats[1..][i].0, stats[1..][i].1[j].0, stats[1..][i].1[j].1);
        assert stats[1..][i] == stats[i + 1];
      }
      if exists i, j :: 0 <= i < |stats| && 0 <= j < |stats[i].1| && row == (stats[i].0, stats[i].1[j].0, stats[i].1[j].1) {
        var i, j :| 0 <= i < |stats| && 0 <= j < |stats[i].1| && row == (stats[i].0, stats[i].1[j].0, stats[i].1[j].1);
        if i == 0 {
          assert head[j] == row;
        } else {
          assert stats[1..][i - 1] == stats[i];
        }
      }
    }
  }
}
