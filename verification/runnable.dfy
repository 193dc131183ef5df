/**
 * `Runnable`: a process descriptor, and its translation into the keyword
 * arguments of `subprocess.Popen`. The base environment (by default a copy of
 * `os.environ`) and `os.path.abspath` are explicit inputs.
 */
module Runnables {
  import opened Wrappers
  import opened Exceptions
  import Text

  /** `Runnable(args, cwd=None, env=None, path=[])`. */
  datatype Runnable = Runnable(
    args: seq<string>,
    cwd: Option<string>,
    env: Option<map<string, string>>,
    path: seq<string>)

  /** The `args`, `cwd` and `env` keyword arguments of `Popen`; `env = None` inherits the parent's. */
  datatype PopenArgs = PopenArgs(args: seq<string>, cwd: Option<string>, env: Option<map<string, string>>)

  /** A runnable with only its argv given: no cwd, no env, no extra path entries. */
  function FromArgs(args: seq<string>): (r: Runnable)
    ensures r.args == args && r.cwd.None? && r.env.None? && r.path == []
  {
    Runnable(args, None, None, [])
  }

  /** Every path entry made absolute, in order. */
  function AbsEntries(path: seq<string>, abspath: string -> string): (r: seq<string>)
    ensures |r| == |path| && forall i :: 0 <= i < |path| ==> r[i] == abspath(path[i])
  {
    seq(|path|, i requires 0 <= i < |path| => abspath(path[i]))
  }

  /** The environment after prepending the path entries to `PATH`. */
  function WithPath(base: map<string, string>, path: seq<string>, abspath: string -> string)
    : map<string, string>
    requires |path| > 0 ==> "PATH" in base
  {
    if |path| > 0 then base["PATH" := Text.Join(AbsEntries(path, abspath), ":") + ":" + base["PATH"]]
    else base
  }

  /**
   * `Runnable.into_popen_args(env)`: absolutised path entries are prepended to
   * `PATH` (a `KeyError` when the base has no `PATH`), then the runnable's env
   * is merged on top. `env` is `None` exactly when nothing was added.
   */
  function IntoPopenArgs(r: Runnable, base: map<string, string>, abspath: string -> string)
    : (p: Result<PopenArgs, Raised>)
    ensures p.Err? <==> |r.path| > 0 && "PATH" !in base
    ensures p.Err? ==> p.error == KeyError("PATH")
    ensures p.Ok? ==> p.value.args == r.args && p.value.cwd == r.cwd
    ensures p.Ok? ==> (p.value.env.None? <==> |r.path| == 0 && r.env.None?)
    ensures p.Ok? && p.value.env.Some? ==>
      var e := p.value.env.value;
      var extra := if r.env.Some? then r.env.value else map[];
      && e.Keys == base.Keys + extra.Keys
      && (forall k :: k in extra ==> e[k] == extra[k])
      && (forall k :: k in base && k !in extra && (k != "PATH" || |r.path| == 0) ==> e[k] == base[k])
      && ("PATH" !in extra && |r.path| > 0 ==>
            e["PATH"] == Text.Join(AbsEntries(r.path, abspath), ":") + ":" + base["PATH"])
  {
    if |r.path| > 0 && "PATH" !in base then Err(KeyError("PATH"))
    else
      var withPath := WithPath(base, r.path, abspath);
      var merged := if r.env.Some? then withPath + r.env.value else withPath;
      Ok(PopenArgs(r.args, r.cwd, if |r.path| > 0 || r.env.Some? then Some(merged) else None))
  }

  /** Splitting `a + ":" + b` at ':' gives `a` first when `a` has no ':'. */
  lemma {:induction false} SplitAfterFirst(a: string, b: string)
    requires ':' !in a
    ensures Text.Split(a + ":" + b, ':') == [a] + Text.Split(b, ':')
  {
    var s := a + ":" + b;
    assert s[|a|] == ':';
    assert ':' in s;
    var i := Text.IndexOf(s, ':');
    assert forall j :: 0 <= j < |a| ==> s[j] == a[j];
    assert i == |a|;
    assert s[i + 1..] == b;
    assert s[..i] == a;
  }

  /**
   * Splitting the new `PATH` at ':' lists the absolutised entries first, in
   * order, followed by the entries of the previous `PATH` (entries without ':').
   */
  lemma {:induction false} PathEntriesFirst(entries: seq<string>, prev: string)
    requires |entries| > 0
    requires forall i :: 0 <= i < |entries| ==> ':' !in entries[i]
    ensures Text.Split(Text.Join(entries, ":") + ":" + prev, ':') == entries + Text.Split(prev, ':')
  {
    if |entries| == 1 {
      SplitAfterFirst(entries[0], prev);
    } else {
      PathEntriesFirst(entries[1..], prev);
      PathEntriesStep(entries, prev, Text.Join(entries[1..], ":"));
    }
  }

  /**
   * The `PATH` handed to `Popen` searches the runnable's path entries first, in
   * order, then the base `PATH`, unless the runnable's own env sets `PATH`.
   */
  lemma PopenPathOrder(r: Runnable, base: map<string, string>, abspath: string -> string)
    requires |r.path| > 0 && "PATH" in base
    requires r.env.None? || "PATH" !in r.env.value
    requires forall i :: 0 <= i < |r.path| ==> ':' !in abspath(r.path[i])
    ensures IntoPopenArgs(r, base, abspath).Ok?
    ensures var e := IntoPopenArgs(r, base, abspath).value.env;
      e.Some? && "PATH" in e.value
      && Text.Split(e.value["PATH"], ':') == AbsEntries(r.path, abspath) + Text.Split(base["PATH"], ':')
  {
    PathEntriesFirst(AbsEntries(r.path, abspath), base["PATH"]);
  }

  lemma PathEntriesStep(entries: seq<string>, prev: string, rest: string)
    requires |entries| > 1 && ':' !in entries[0]
    requires rest == Text.Join(entries[1..], ":")
    requires Text.Split(rest + ":" + prev, ':') == entries[1..] + Text.Split(prev, ':')
    ensures Text.Split(Text.Join(entries, ":") + ":" + prev, ':') == entries + Text.Split(prev, ':')
  {
    var tail := rest + ":" + prev;
    var s := Text.Join(entries, ":") + ":" + prev;
    Text.JoinCons(entries, ":");
    Reassociate(entries[0], rest, prev, Text.Join(entries, ":"));
    assert s == entries[0] + ":" + tail;
    SplitAfterFirst(entries[0], tail);
    ConsSplit(entries, Text.Split(s, ':'), Text.Split(tail, ':'), Text.Split(prev, ':'));
  }

  lemma ConsSplit(entries: seq<string>, whole: seq<string>, tail: seq<string>, prev: seq<string>)
    requires |entries| > 0
    requires whole == [entries[0]] + tail
    requires tail == entries[1..] + prev
    ensures whole == entries + prev
  {
    assert [entries[0]] + entries[1..] == entries;
  }

  lemma Reassociate(a: string, b: string, c: string, ab: string)
    requires ab == a + ":" + b
    ensures ab + ":" + c == a + ":" + (b + ":" + c)
  {
  }
}
