/**
 * `Command`: an argv with environment overrides and an optional working
 * directory, and its JSON (de)serialization.
 */
module Commands {
  import opened Wrappers
  import opened Exceptions
  import opened JsonValue
  import Shlex

  /** The instance fields of a `Command` object. */
  datatype Command = Command(command: seq<string>, env: map<string, string>, workdir: Option<string>)

  /** The constructor's `command` argument: a shell string or an argv list. */
  datatype CommandArg = ArgString(text: string) | ArgList(items: seq<string>)

  /** The field names of a `Command`, which are also its constructor's keywords. */
  const Keywords: set<string> := {"command", "env", "workdir"}

  /**
   * `Command(command, env, workdir)`: a string is shell-split into argv, a list is
   * stored unchanged; `env` and `workdir` are stored as given.
   */
  function New(arg: CommandArg, env: map<string, string>, workdir: Option<string>): (r: Result<Command, Raised>)
    ensures arg.ArgList? ==> r == Ok(Command(arg.items, env, workdir))
    ensures arg.ArgString? ==> (r.Ok? <==> Shlex.Split(arg.text).Ok?)
    ensures arg.ArgString? && r.Ok? ==> r.value.command == Shlex.Split(arg.text).value
    ensures r.Ok? ==> r.value.env == env && r.value.workdir == workdir
  {
    match arg
    case ArgList(items) => Ok(Command(items, env, workdir))
    case ArgString(text) =>
      var argv :- Shlex.Split(text);
      Ok(Command(argv, env, workdir))
  }

  /** The `command` value of a JSON object: a string, or an array of strings. */
  function DecodeArg(v: Json): (r: Result<CommandArg, Raised>)
    ensures v.JStr? ==> r == Ok(ArgString(v.s))
    ensures r.Ok? && r.value.ArgList? ==> v.JArr? && Strings(v.items) == Some(r.value.items)
    ensures r.Err? <==> !v.JStr? && !(v.JArr? && Strings(v.items).Some?)
    ensures r.Err? ==> r.error == IllTyped("command")
  {
    match v
    case JStr(s) => Ok(ArgString(s))
    case JArr(items) =>
      (match Strings(items)
       case Some(ss) => Ok(ArgList(ss))
       case None => Err(IllTyped("command")))
    case _ => Err(IllTyped("command"))
  }

  /** An optional string: JSON `null` is `None`. */
  function DecodeOptString(v: Json, field: string): (r: Result<Option<string>, Raised>)
    ensures r.Ok? <==> v.JNull? || v.JStr?
    ensures v.JStr? ==> r == Ok(Some(v.s))
    ensures v.JNull? ==> r == Ok(None)
    ensures r.Err? ==> r.error == IllTyped(field)
  {
    match v
    case JNull => Ok(None)
    case JStr(s) => Ok(Some(s))
    case _ => Err(IllTyped(field))
  }

  /** A `command` value the constructor accepts: a string that shell-splits, or an array of strings. */
  predicate CommandValueOk(v: Json) {
    (v.JStr? && Shlex.Split(v.s).Ok?) || (v.JArr? && Strings(v.items).Some?)
  }

  /** The `env` keyword, when given, is an object of strings. */
  predicate EnvOk(m: map<string, Json>) {
    "env" in m ==> m["env"].JObj? && StringMap(m["env"].fields).Some?
  }

  /** The `workdir` keyword, when given, is a string or `null`. */
  predicate WorkdirOk(m: map<string, Json>) {
    "workdir" in m ==> m["workdir"].JStr? || m["workdir"].JNull?
  }

  /**
   * `Command(**json)`: keys are matched to keyword arguments by name. An unknown
   * key or a missing `command` is a `TypeError`; `env` defaults to an empty map
   * and `workdir` to `None`.
   */
  function FromKeywords(m: map<string, Json>): (r: Result<Command, Raised>)
    ensures r.Ok? <==> m.Keys <= Keywords && "command" in m && CommandValueOk(m["command"]) && EnvOk(m) && WorkdirOk(m)
    ensures !(m.Keys <= Keywords) ==> r.Err? && r.error.TypeError?
    ensures m.Keys <= Keywords && "command" !in m ==> r.Err? && r.error.TypeError?
    ensures r.Ok? && m["command"].JStr? ==> r.value.command == Shlex.Split(m["command"].s).value
    ensures r.Ok? && m["command"].JArr? ==> Strings(m["command"].items) == Some(r.value.command)
    ensures r.Ok? && "env" !in m ==> r.value.env == map[]
    ensures r.Ok? && "workdir" !in m ==> r.value.workdir == None
    ensures r.Ok? && "env" in m ==> m["env"] == JObj(FromStringMap(r.value.env))
    ensures r.Ok? && "workdir" in m ==> r.value.workdir == (if m["workdir"].JStr? then Some(m["workdir"].s) else None)
  {
    if !(m.Keys <= Keywords) then Err(TypeError("unexpected keyword argument"))
    else if "command" !in m then Err(TypeError("missing required argument: 'command'"))
    else
      var arg :- DecodeArg(m["command"]);
      var env :- if "env" !in m then Ok(map[])
                 else if !m["env"].JObj? then Err(IllTyped("env"))
                 else (match StringMap(m["env"].fields)
                       case Some(e) => Ok(e)
                       case None => Err(IllTyped("env")));
      var workdir :- if "workdir" in m then DecodeOptString(m["workdir"], "workdir") else Ok(None);
      assert "env" in m ==> m["env"] == JObj(FromStringMap(env)) by {
        if "env" in m {
          assert m["env"].fields == FromStringMap(env);
        }
      }
      New(arg, env, workdir)
  }

  /**
   * `Command.deserialize(json)`: a string is constructed from directly, an
   * object is passed by keywords, anything else fails its assertion.
   */
  function Deserialize(j: Json): (r: Result<Command, Raised>)
    ensures j.JStr? ==> r == New(ArgString(j.s), map[], None)
    ensures j.JObj? ==> r == FromKeywords(j.fields)
    ensures !j.JStr? && !j.JObj? ==> r == Err(AssertionError)
  {
    match j
    case JStr(s) => New(ArgString(s), map[], None)
    case JObj(m) => FromKeywords(m)
    case _ => Err(AssertionError)
  }

  /**
   * `Command.deserialize_commands(json)`: a non-array is wrapped in a one-element
   * list; an array is deserialized element by element, in order, stopping at
   * the first element that fails.
   */
  function DeserializeCommands(j: Json): (r: Result<seq<Command>, Raised>)
    ensures !j.JArr? ==> (r.Ok? <==> Deserialize(j).Ok?)
    ensures !j.JArr? && r.Ok? ==> r.value == [Deserialize(j).value]
    ensures j.JArr? ==> (r.Ok? <==> forall i :: 0 <= i < |j.items| ==> Deserialize(j.items[i]).Ok?)
    ensures j.JArr? && r.Ok? ==>
      |r.value| == |j.items| && forall i :: 0 <= i < |j.items| ==> Ok(r.value[i]) == Deserialize(j.items[i])
  {
    match j
    case JArr(items) => DeserializeAll(items)
    case _ =>
      var c :- Deserialize(j);
      Ok([c])
  }

  /** The deserialization of each element, in order. */
  function Each(items: seq<Json>): (r: seq<Result<Command, Raised>>)
    ensures |r| == |items| && forall i :: 0 <= i < |items| ==> r[i] == Deserialize(items[i])
  {
    seq(|items|, i requires 0 <= i < |items| => Deserialize(items[i]))
  }

  /** Deserializes every element, in order. */
  function DeserializeAll(items: seq<Json>): (r: Result<seq<Command>, Raised>)
    ensures r.Ok? <==> forall i :: 0 <= i < |items| ==> Deserialize(items[i]).Ok?
    ensures r.Ok? ==>
      |r.value| == |items| && forall i :: 0 <= i < |items| ==> Ok(r.value[i]) == Deserialize(items[i])
  {
    AllOk(Each(items))
  }

  /** The error reported is that of the first element that fails. */
  lemma DeserializeAllFirstError(items: seq<Json>)
    requires DeserializeAll(items).Err?
    ensures exists i :: (0 <= i < |items| && Deserialize(items[i]) == Err(DeserializeAll(items).error)
                         && forall k :: 0 <= k < i ==> Deserialize(items[k]).Ok?)
  {
    var rs := Each(items);
    AllOkFirstError(rs);
    var i :| 0 <= i < |rs| && rs[i] == Err(AllOk(rs).error) && forall k :: 0 <= k < i ==> rs[k].Ok?;
    assert Deserialize(items[i]) == Err(DeserializeAll(items).error);
  }

  /** `Serializable.serialize(obj)`: the object's field map, `obj.__dict__`. */
  function Serialize(c: Command): (r: Json)
    ensures r.JObj? && r.fields.Keys == Keywords
  {
    JObj(map[
      "command" := JArr(FromStrings(c.command)),
      "env" := JObj(FromStringMap(c.env)),
      "workdir" := match c.workdir { case Some(w) => JStr(w) case None => JNull }
    ])
  }

  /** Deserializing the serialized field map gives back a field-equal `Command`. */
  lemma RoundTrip(c: Command)
    ensures Deserialize(Serialize(c)) == Ok(c)
  {
    var m := Serialize(c).fields;
    StringsRoundTrip(c.command);
    StringMapRoundTrip(c.env);
    assert DecodeArg(m["command"]) == Ok(ArgList(c.command));
  }

  /** A string passed as the `command` keyword alone gives the same command as the bare string. */
  lemma KeywordStringAgrees(s: string)
    ensures Deserialize(JObj(map["command" := JStr(s)])) == Deserialize(JStr(s))
  {
    var m := map["command" := JStr(s)];
    assert m.Keys == {"command"};
  }

  /** A list argument is stored as it is, never re-split: `["echo", "hello world"]` keeps two elements. */
  lemma ListNotResplit(j: Json)
    requires j == JObj(map["command" := JArr([JStr("echo"), JStr("hello world")])])
    ensures Deserialize(j) == Ok(Command(["echo", "hello world"], map[], None))
  {
    var r := Strings(j.fields["command"].items);
    assert r.Some?;
    assert r.value == ["echo", "hello world"];
  }

  /**
   * A command string without quotes or backslashes is split on whitespace:
   * the command is its whitespace-separated fields, with no environment and
   * no working directory.
   */
  lemma StringIsSplit(s: string)
    requires Shlex.Plain(s)
    ensures Deserialize(JStr(s)) == Ok(Command(Shlex.Fields(s), map[], None))
  {
    Shlex.SplitPlainIsFields(s);
  }

  /** `"/bin/echo Hello world"` gives three arguments. */
  lemma EchoStringIsSplit(s: string)
    requires s == "/bin/echo Hello world"
    ensures Deserialize(JStr(s)) == Ok(Command(["/bin/echo", "Hello", "world"], map[], None))
  {
    Shlex.SplitEchoExample(s);
  }
}
