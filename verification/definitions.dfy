/**
 * Benchmark definitions: `Benchmark`, `Preset` and `StatMatchInfo`, decoded
 * from the JSON documents that declare them.
 */
module Definitions {
  import opened Wrappers
  import opened Exceptions
  import opened JsonValue
  import opened Commands

  /** Where to find one statistic: a regex, and optionally a file to search instead of the output. */
  datatype StatMatchInfo = StatMatchInfo(regex: string, file: Option<string>)

  /** The `stats` field: a stats-script command, or a map of stat name to match info. */
  datatype Stats = Script(command: Command) | Matchers(matchers: map<string, StatMatchInfo>)

  /** The instance fields of a `Benchmark`. */
  datatype Benchmark = Benchmark(
    name: string,
    description: string,
    setupCommands: Option<seq<Command>>,
    runCommands: seq<Command>,
    cleanupCommands: Option<seq<Command>>,
    stats: Stats,
    virtualenv: bool)

  /** The instance fields of a `Preset`; `args` is `None` when the attribute is never set. */
  datatype Preset = Preset(args: Option<seq<string>>, initCommands: Option<seq<Command>>, postCommands: Option<seq<Command>>)

  const StatKeywords: set<string> := {"regex", "file"}

  // ---------------------------------------------------------------------------
  // StatMatchInfo

  /**
   * `StatMatchInfo.deserialize(json)`, that is `StatMatchInfo(**json)`: `regex` is
   * required and stored verbatim, `file` defaults to `None`, other keys are rejected.
   */
  function DeserializeStat(j: Json): (r: Result<StatMatchInfo, Raised>)
    ensures r.Ok? ==> j.JObj? && j.fields.Keys <= StatKeywords && "regex" in j.fields
    ensures r.Ok? ==> j.fields["regex"] == JStr(r.value.regex)
    ensures r.Ok? && "file" !in j.fields ==> r.value.file == None
    ensures r.Ok? <==> (j.JObj? && j.fields.Keys <= StatKeywords && "regex" in j.fields && j.fields["regex"].JStr?
                        && ("file" in j.fields ==> j.fields["file"].JNull? || j.fields["file"].JStr?))
    ensures r.Ok? && "file" in j.fields ==> r.value.file == (if j.fields["file"].JStr? then Some(j.fields["file"].s) else None)
    ensures r.Err? && j.JObj? && j.fields.Keys <= StatKeywords && "regex" in j.fields ==>
              r.error == IllTyped(if j.fields["regex"].JStr? then "file" else "regex")
    ensures r.Err? && !(j.JObj? && j.fields.Keys <= StatKeywords && "regex" in j.fields) ==> r.error.TypeError?
  {
    match j
    case JObj(m) =>
      if !(m.Keys <= StatKeywords) then Err(TypeError("unexpected keyword argument"))
      else if "regex" !in m then Err(TypeError("missing required argument: 'regex'"))
      else if !m["regex"].JStr? then Err(IllTyped("regex"))
      else
        var file :- if "file" in m then DecodeOptString(m["file"], "file") else Ok(None);
        Ok(StatMatchInfo(m["regex"].s, file))
    case _ => Err(TypeError("argument after ** must be a mapping"))
  }

  /** `Serializable.serialize`: the field map of a `StatMatchInfo`. */
  function SerializeStat(s: StatMatchInfo): (r: Json)
    ensures r.JObj? && r.fields.Keys == StatKeywords
  {
    JObj(map["regex" := JStr(s.regex), "file" := match s.file { case Some(f) => JStr(f) case None => JNull }])
  }

  /** Deserializing the serialized field map gives back a field-equal `StatMatchInfo`. */
  lemma StatRoundTrip(s: StatMatchInfo)
    ensures DeserializeStat(SerializeStat(s)) == Ok(s)
  {
  }

  // ---------------------------------------------------------------------------
  // Benchmark

  /**
   * The `stats` value: a string, or an object with a `command` key, is a stats
   * script; any other object maps every key to a `StatMatchInfo`. A list that
   * holds the string `command` passes the same `in` test and reaches the
   * `assert False` of `Command.deserialize`.
   */
  function DecodeStats(v: Json): (r: Result<Stats, Raised>)
    ensures r.Ok? ==> v.JStr? || v.JObj?
    ensures v.JArr? && JStr("command") in v.items ==> r == Err(AssertionError)
    ensures v.JStr? || (v.JObj? && "command" in v.fields) ==> (r.Ok? <==> Deserialize(v).Ok?)
    ensures r.Ok? ==> (r.value.Script? <==> v.JStr? || "command" in v.fields)
    ensures r.Ok? && r.value.Script? ==> Deserialize(v) == Ok(r.value.command)
    ensures r.Ok? && r.value.Matchers? ==>
      r.value.matchers.Keys == v.fields.Keys
      && forall k :: k in v.fields ==> DeserializeStat(v.fields[k]) == Ok(r.value.matchers[k])
    ensures v.JObj? && "command" !in v.fields ==>
      (r.Ok? <==> forall k :: k in v.fields ==> DeserializeStat(v.fields[k]).Ok?)
  {
    if v.JStr? || (v.JObj? && "command" in v.fields) || (v.JArr? && JStr("command") in v.items) then
      var c :- Deserialize(v);
      Ok(Script(c))
    else if v.JObj? then
      var m := v.fields;
      if forall k :: k in m ==> DeserializeStat(m[k]).Ok? then
        Ok(Matchers(map k | k in m :: DeserializeStat(m[k]).value))
      else Err(TypeError("invalid stat match info"))
    else Err(TypeError("stats must be a string or an object"))
  }

  /** A required string field: `KeyError` when missing. */
  function RequiredString(m: map<string, Json>, key: string): (r: Result<string, Raised>)
    ensures r.Ok? <==> key in m && m[key].JStr?
    ensures r.Ok? ==> m[key] == JStr(r.value)
    ensures key !in m ==> r == Err(KeyError(key))
  {
    if key !in m then Err(KeyError(key))
    else if !m[key].JStr? then Err(IllTyped(key))
    else Ok(m[key].s)
  }

  /** An optional command list: `None` when the key is absent. */
  function OptionalCommands(m: map<string, Json>, key: string): (r: Result<Option<seq<Command>>, Raised>)
    ensures key !in m ==> r == Ok(None)
    ensures key in m ==> (r.Ok? <==> DeserializeCommands(m[key]).Ok?)
    ensures key in m && r.Ok? ==> r.value == Some(DeserializeCommands(m[key]).value)
  {
    if key in m then
      var cs :- DeserializeCommands(m[key]);
      Ok(Some(cs))
    else Ok(None)
  }

  /**
   * `Benchmark.deserialize(json)`. The document is checked against the schema
   * (`valid`) before any field is read. `setup_command` and `cleanup_command`
   * are optional, `run_command` and `stats` are required, `virtualenv`
   * defaults to false.
   */
  function DeserializeBenchmark(j: Json, valid: Json -> bool): (r: Result<Benchmark, Raised>)
    ensures !valid(j) ==> r == Err(SchemaError)
    ensures r.Ok? ==> valid(j) && j.JObj? && "run_command" in j.fields && "stats" in j.fields
    ensures r.Ok? ==> ("name" in j.fields && j.fields["name"] == JStr(r.value.name))
    ensures r.Ok? ==> ("description" in j.fields && j.fields["description"] == JStr(r.value.description))
    ensures r.Ok? ==> Ok(r.value.setupCommands) == OptionalCommands(j.fields, "setup_command")
    ensures r.Ok? ==> Ok(r.value.cleanupCommands) == OptionalCommands(j.fields, "cleanup_command")
    ensures r.Ok? ==> DeserializeCommands(j.fields["run_command"]) == Ok(r.value.runCommands)
    ensures r.Ok? ==> DecodeStats(j.fields["stats"]) == Ok(r.value.stats)
    ensures r.Ok? ==> (r.value.virtualenv <==> "virtualenv" in j.fields && j.fields["virtualenv"] == JBool(true))
    ensures (valid(j) && j.JObj? && OptionalCommands(j.fields, "setup_command").Ok?
             && "run_command" !in j.fields) ==> r == Err(KeyError("run_command"))
    ensures r.Ok? <==>
              && valid(j) && j.JObj?
              && OptionalCommands(j.fields, "setup_command").Ok?
              && "run_command" in j.fields && DeserializeCommands(j.fields["run_command"]).Ok?
              && OptionalCommands(j.fields, "cleanup_command").Ok?
              && "stats" in j.fields && DecodeStats(j.fields["stats"]).Ok?
              && RequiredString(j.fields, "name").Ok?
              && RequiredString(j.fields, "description").Ok?
              && ("virtualenv" in j.fields ==> j.fields["virtualenv"].JBool?)
  {
    if !valid(j) then Err(SchemaError)
    else if !j.JObj? then Err(TypeError("benchmark definition must be an object"))
    else
      var m := j.fields;
      var setup :- OptionalCommands(m, "setup_command");
      var run :- if "run_command" in m then DeserializeCommands(m["run_command"]) else Err(KeyError("run_command"));
      var cleanup :- OptionalCommands(m, "cleanup_command");
      var stats :- if "stats" in m then DecodeStats(m["stats"]) else Err(KeyError("stats"));
      var name :- RequiredString(m, "name");
      var description :- RequiredString(m, "description");
      var virtualenv :- if "virtualenv" !in m then Ok(false)
                        else if m["virtualenv"].JBool? then Ok(m["virtualenv"].b)
                        else Err(IllTyped("virtualenv"));
      Ok(Benchmark(name, description, setup, run, cleanup, stats, virtualenv))
  }

  /** `Serializable.serialize`: the field map of a `Benchmark`, nested objects serialized alike. */
  function SerializeBenchmark(b: Benchmark): (r: Json)
    ensures r.JObj? && r.fields.Keys == {"name", "description", "setup_commands", "run_commands",
                                         "cleanup_commands", "stats", "virtualenv"}
  {
    JObj(map[
      "name" := JStr(b.name),
      "description" := JStr(b.description),
      "setup_commands" := SerializeOptCommands(b.setupCommands),
      "run_commands" := JArr(SerializeCommands(b.runCommands)),
      "cleanup_commands" := SerializeOptCommands(b.cleanupCommands),
      "stats" := match b.stats {
        case Script(c) => Serialize(c)
        case Matchers(ms) => JObj(map k | k in ms :: SerializeStat(ms[k]))
      },
      "virtualenv" := JBool(b.virtualenv)
    ])
  }

  function SerializeCommands(cs: seq<Command>): (r: seq<Json>)
    ensures |r| == |cs| && forall i :: 0 <= i < |cs| ==> r[i] == Serialize(cs[i])
  {
    seq(|cs|, i requires 0 <= i < |cs| => Serialize(cs[i]))
  }

  function SerializeOptCommands(cs: Option<seq<Command>>): Json {
    match cs
    case Some(l) => JArr(SerializeCommands(l))
    case None => JNull
  }

  /**
   * A serialized `Benchmark` cannot be read back: its field names
   * (`run_commands`, ...) differ from the keys `deserialize` reads (`run_command`).
   */
  lemma BenchmarkSerializeNotReadable(b: Benchmark, valid: Json -> bool)
    ensures DeserializeBenchmark(SerializeBenchmark(b), valid).Err?
  {
    var j := SerializeBenchmark(b);
    assert "run_command" !in j.fields;
  }

  // ---------------------------------------------------------------------------
  // Preset

  /**
   * `Preset(args, init_commands, post_commands)`: string args are shell-split,
   * list args kept; with neither args nor init commands it raises `TypeError`.
   */
  function NewPreset(args: Option<CommandArg>, init: Option<seq<Command>>, post: Option<seq<Command>>)
    : (r: Result<Preset, Raised>)
    ensures args.None? && init.None? <==> r.Err? && r.error.TypeError?
    ensures args.Some? && args.value.ArgList? ==> r == Ok(Preset(Some(args.value.items), init, post))
    ensures args.Some? && args.value.ArgString? ==>
      (r.Ok? <==> Shlex.Split(args.value.text).Ok?)
      && (r.Ok? ==> r.value.args == Some(Shlex.Split(args.value.text).value))
    ensures args.None? && init.Some? ==> r == Ok(Preset(None, init, post))
  {
    match args
    case Some(ArgList(items)) => Ok(Preset(Some(items), init, post))
    case Some(ArgString(text)) =>
      var argv :- Shlex.Split(text);
      Ok(Preset(Some(argv), init, post))
    case None =>
      if init.None? then Err(TypeError("Either args or init_command have to be specified"))
      else Ok(Preset(None, init, post))
  }

  /** The `args` value of a preset document: `null`, a string or an array of strings. */
  function DecodePresetArgs(v: Json): (r: Result<Option<CommandArg>, Raised>)
    ensures v.JNull? ==> r == Ok(None)
    ensures r.Ok? && r.value.Some? ==> DecodeArg(v) == Ok(r.value.value)
    ensures !v.JNull? ==> (r.Ok? <==> DecodeArg(v).Ok?) && (r.Ok? ==> r.value == Some(DecodeArg(v).value))
  {
    if v.JNull? then Ok(None)
    else
      var a :- DecodeArg(v);
      Ok(Some(a))
  }

  /**
   * The `args` value `Preset.__init__` accepts: absent, `null`, a string
   * `shlex.split` can split, or a list of strings.
   */
  predicate ArgsAccepted(m: map<string, Json>) {
    "args" !in m || m["args"].JNull?
    || (m["args"].JStr? && Shlex.Split(m["args"].s).Ok?)
    || (m["args"].JArr? && Strings(m["args"].items).Some?)
  }

  /**
   * `Preset.deserialize(json)`: `KeyError` when neither `args` nor
   * `init_command` is present, then the constructor's own rule applies to
   * `json.get("args")`: a string is shell-split, a list kept, and `null` or
   * no `args` at all needs init commands.
   */
  function DeserializePreset(j: Json): (r: Result<Preset, Raised>)
    ensures j.JObj? && "args" !in j.fields && "init_command" !in j.fields ==> r == Err(KeyError("args"))
    ensures r.Ok? ==> j.JObj? && ("args" in j.fields || "init_command" in j.fields)
    ensures r.Ok? ==> Ok(r.value.initCommands) == OptionalCommands(j.fields, "init_command")
    ensures r.Ok? ==> Ok(r.value.postCommands) == OptionalCommands(j.fields, "post_command")
    ensures r.Ok? ==> r.value.args.Some? || r.value.initCommands.Some?
    ensures (j.JObj? && "init_command" !in j.fields && "args" in j.fields && j.fields["args"].JNull?
             && OptionalCommands(j.fields, "post_command").Ok?) ==> r.Err? && r.error.TypeError?
    ensures r.Ok? <==>
              && j.JObj?
              && OptionalCommands(j.fields, "init_command").Ok?
              && OptionalCommands(j.fields, "post_command").Ok?
              && ArgsAccepted(j.fields)
              && (("args" in j.fields && !j.fields["args"].JNull?) || "init_command" in j.fields)
    ensures r.Ok? && "args" in j.fields && j.fields["args"].JStr? ==>
              r.value.args == Some(Shlex.Split(j.fields["args"].s).value)
    ensures r.Ok? && "args" in j.fields && j.fields["args"].JArr? ==>
              r.value.args == Strings(j.fields["args"].items)
    ensures r.Ok? && ("args" !in j.fields || j.fields["args"].JNull?) ==> r.value.args.None?
  {
    match j
    case JObj(m) =>
      if "args" !in m && "init_command" !in m then Err(KeyError("args"))
      else
        var init :- OptionalCommands(m, "init_command");
        var post :- OptionalCommands(m, "post_command");
        var args :- if "args" in m then DecodePresetArgs(m["args"]) else Ok(None);
        NewPreset(args, init, post)
    case _ => Err(TypeError("preset definition must be an object"))
  }
}
