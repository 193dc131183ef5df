/**
 * Finding benchmark and suite definitions along the ':'-separated search
 * path. Directory listings, file tests and definition loading are inputs; the
 * walk is a sequence of steps consumed lazily, as Python's generators are.
 */
module Discovery {
  import opened Wrappers
  import opened Exceptions
  import Text
  import Seqs
  import PosixPath

  /** `[join(x, sub) for x in search_path.split(":")]` */
  function Roots(searchPath: string, sub: string): (r: seq<string>)
    ensures |r| == |Text.Split(searchPath, ':')|
    ensures forall i :: 0 <= i < |r| ==> r[i] == PosixPath.Join(Text.Split(searchPath, ':')[i], sub)
  {
    var entries := Text.Split(searchPath, ':');
    seq(|entries|, i requires 0 <= i < |entries| => PosixPath.Join(entries[i], sub))
  }

  /** One step of a walk: a directory that could not be listed, or a definition file. */
  datatype Step = Unlisted(dir: string) | Entry(path: string)

  /** `join(root, name, "benchmark.json")` */
  function DefinitionFile(root: string, name: string): string {
    PosixPath.Join(PosixPath.Join(root, name), "benchmark.json")
  }

  /** The names that pass `keep`, in listing order. */
  function Kept(names: seq<string>, keep: string -> bool): (r: seq<string>)
    ensures Seqs.FilterOf(r, names, keep)
    ensures forall n :: n in r <==> n in names && keep(n)
    decreases |names|
  {
    if |names| == 0 then []
    else
      var rest := Kept(names[1..], keep);
      assert forall n :: n in names <==> n == names[0] || n in names[1..];
      if keep(names[0]) then
        Seqs.FilterConsKept(names[0], rest, names, keep);
        [names[0]] + rest
      else
        Seqs.FilterConsDropped(rest, names, keep);
        rest
  }

  function Entries(files: seq<string>): (r: seq<Step>)
    ensures |r| == |files| && forall i :: 0 <= i < |files| ==> r[i] == Entry(files[i])
  {
    seq(|files|, i requires 0 <= i < |files| => Entry(files[i]))
  }

  /** The definition file of each name under `root`, in order. */
  function DefinitionFiles(root: string, names: seq<string>): (r: seq<string>)
    ensures |r| == |names| && forall i :: 0 <= i < |names| ==> r[i] == DefinitionFile(root, names[i])
  {
    seq(|names|, i requires 0 <= i < |names| => DefinitionFile(root, names[i]))
  }

  /** `exists(join(root, name, "benchmark.json"))` */
  function HasDefinition(root: string, present: string -> bool): string -> bool {
    n => present(DefinitionFile(root, n))
  }

  /** The definition files of the subdirectories of `root` that have one, in listing order. */
  function BenchmarkEntries(root: string, names: seq<string>, present: string -> bool): seq<Step> {
    Entries(DefinitionFiles(root, Kept(names, HasDefinition(root, present))))
  }

  /** The steps one root contributes: a report when it cannot be listed, else its definition files. */
  function BenchmarkRoot(root: string, listdir: string -> Option<seq<string>>, present: string -> bool): seq<Step> {
    match listdir(root)
    case None => [Unlisted(root)]
    case Some(names) => BenchmarkEntries(root, names, present)
  }

  /**
   * `search_benchmarks`: for each root, a directory that cannot be listed is
   * reported and skipped; otherwise its subdirectories with a definition file.
   */
  function BenchmarkSteps(roots: seq<string>, listdir: string -> Option<seq<string>>, present: string -> bool)
    : (r: seq<Step>)
    ensures forall d :: Unlisted(d) in r <==> d in roots && listdir(d).None?
    decreases |roots|
  {
    if |roots| == 0 then []
    else
      var here := BenchmarkRoot(roots[0], listdir, present);
      var rest := BenchmarkSteps(roots[1..], listdir, present);
      assert forall d :: d in roots[1..] ==> d in roots;
      assert forall d :: d in roots && d != roots[0] ==> d in roots[1..];
      here + rest
  }

  /** Roots are walked in search-path order: the walk of two lists is the first's walk, then the second's. */
  lemma {:induction false} BenchmarkStepsConcat(a: seq<string>, b: seq<string>,
                                                listdir: string -> Option<seq<string>>, present: string -> bool)
    ensures BenchmarkSteps(a + b, listdir, present) == BenchmarkSteps(a, listdir, present) + BenchmarkSteps(b, listdir, present)
    decreases |a|
  {
    if |a| > 0 {
      assert (a + b)[1..] == a[1..] + b;
      BenchmarkStepsConcat(a[1..], b, listdir, present);
      Seqs.Regroup(BenchmarkRoot(a[0], listdir, present), BenchmarkSteps(a[1..], listdir, present),
                   BenchmarkSteps(b, listdir, present));
    } else {
      assert a + b == b;
    }
  }

  /**
   * One listed root yields the definition files of exactly the subdirectories
   * that have one, in listing order; an unlisted root yields its report.
   */
  lemma BenchmarkStepsOneRoot(root: string, listdir: string -> Option<seq<string>>, present: string -> bool)
    ensures listdir(root).None? ==> BenchmarkSteps([root], listdir, present) == [Unlisted(root)]
    ensures listdir(root).Some? ==>
      exists kept :: Seqs.FilterOf(kept, listdir(root).value, HasDefinition(root, present))
                     && BenchmarkSteps([root], listdir, present) == Entries(DefinitionFiles(root, kept))
  {
    assert BenchmarkSteps([root], listdir, present) == BenchmarkRoot(root, listdir, present) + [];
    if listdir(root).Some? {
      var kept := Kept(listdir(root).value, HasDefinition(root, present));
      assert BenchmarkSteps([root], listdir, present) == Entries(DefinitionFiles(root, kept));
    }
  }

  /** `d` is a subdirectory of `root` with a definition file. */
  predicate Defines(root: string, d: string, listdir: string -> Option<seq<string>>, present: string -> bool) {
    listdir(root).Some? && d in listdir(root).value && present(DefinitionFile(root, d))
  }

  /** A step list of entries holds exactly the entries of its files. */
  lemma EntriesMember(files: seq<string>, p: string)
    ensures Entry(p) in Entries(files) <==> p in files
  {
    if Entry(p) in Entries(files) {
      var k :| 0 <= k < |files| && Entries(files)[k] == Entry(p);
    }
    if p in files {
      var k :| 0 <= k < |files| && files[k] == p;
      assert Entries(files)[k] == Entry(p);
    }
  }

  /** The definition files of some names are those of their members. */
  lemma DefinitionFilesMember(root: string, names: seq<string>, p: string)
    ensures p in DefinitionFiles(root, names) <==> exists d :: d in names && p == DefinitionFile(root, d)
  {
    var files := DefinitionFiles(root, names);
    if p in files {
      var k :| 0 <= k < |files| && files[k] == p;
      assert names[k] in names;
    }
    if exists d :: d in names && p == DefinitionFile(root, d) {
      var d :| d in names && p == DefinitionFile(root, d);
      var k :| 0 <= k < |names| && names[k] == d;
      assert files[k] == p;
    }
  }

  /** One root yields the definition file of each of its subdirectories that has one, and no other. */
  lemma BenchmarkRootEntries(root: string, listdir: string -> Option<seq<string>>, present: string -> bool, p: string)
    ensures Entry(p) in BenchmarkRoot(root, listdir, present) <==>
      exists d :: Defines(root, d, listdir, present) && p == DefinitionFile(root, d)
  {
    if listdir(root).Some? {
      var names := listdir(root).value;
      var kept := Kept(names, HasDefinition(root, present));
      EntriesMember(DefinitionFiles(root, kept), p);
      DefinitionFilesMember(root, kept, p);
      assert forall d :: d in kept <==> Defines(root, d, listdir, present);
    }
  }

  /** A definition file is yielded exactly when it belongs to a listed subdirectory of some root. */
  lemma {:induction false} BenchmarkStepsEntries(roots: seq<string>, listdir: string -> Option<seq<string>>,
                                                 present: string -> bool, p: string)
    ensures Entry(p) in BenchmarkSteps(roots, listdir, present) <==>
      exists i, d :: 0 <= i < |roots| && Defines(roots[i], d, listdir, present) && p == DefinitionFile(roots[i], d)
    decreases |roots|
  {
    if |roots| > 0 {
      var rest := roots[1..];
      BenchmarkStepsEntries(rest, listdir, present, p);
      BenchmarkRootEntries(roots[0], listdir, present, p);
      assert BenchmarkSteps(roots, listdir, present) == BenchmarkRoot(roots[0], listdir, present) + BenchmarkSteps(rest, listdir, present);
      if exists i, d :: 0 <= i < |rest| && Defines(rest[i], d, listdir, present) && p == DefinitionFile(rest[i], d) {
        var i, d :| 0 <= i < |rest| && Defines(rest[i], d, listdir, present) && p == DefinitionFile(rest[i], d);
        assert rest[i] == roots[i + 1];
      }
      if exists i, d :: 0 <= i < |roots| && Defines(roots[i], d, listdir, present) && p == DefinitionFile(roots[i], d) {
        var i, d :| 0 <= i < |roots| && Defines(roots[i], d, listdir, present) && p == DefinitionFile(roots[i], d);
        if i > 0 {
          assert roots[i] == rest[i - 1];
        }
      }
    }
  }

  /** The path of each name under `root`, in order. */
  function Paths(root: string, names: seq<string>): (r: seq<string>)
    ensures |r| == |names| && forall i :: 0 <= i < |names| ==> r[i] == PosixPath.Join(root, names[i])
  {
    seq(|names|, i requires 0 <= i < |names| => PosixPath.Join(root, names[i]))
  }

  /** `isfile(join(root, name)) and name.endswith(".json")` */
  function IsSuiteFile(root: string, isFile: string -> bool): string -> bool {
    n => isFile(PosixPath.Join(root, n)) && Text.EndsWith(n, ".json")
  }

  /** The regular files of `root` named `*.json`, in listing order. */
  function JsonFiles(root: string, names: seq<string>, isFile: string -> bool): seq<Step> {
    Entries(Paths(root, Kept(names, IsSuiteFile(root, isFile))))
  }

  /** The steps one suites folder contributes: a report when it cannot be listed, else its `.json` files. */
  function SuiteRoot(root: string, listdir: string -> Option<seq<string>>, isFile: string -> bool): seq<Step> {
    match listdir(root)
    case None => [Unlisted(root)]
    case Some(names) => JsonFiles(root, names, isFile)
  }

  /** `get_suites`: the `.json` files of each root in turn; listing a missing root raises. */
  function SuiteSteps(roots: seq<string>, listdir: string -> Option<seq<string>>, isFile: string -> bool)
    : (r: seq<Step>)
    ensures forall d :: Unlisted(d) in r <==> d in roots && listdir(d).None?
    decreases |roots|
  {
    if |roots| == 0 then []
    else
      var here := SuiteRoot(roots[0], listdir, isFile);
      var rest := SuiteSteps(roots[1..], listdir, isFile);
      assert forall d :: d in roots[1..] ==> d in roots;
      assert forall d :: d in roots && d != roots[0] ==> d in roots[1..];
      here + rest
  }

  /** Suite folders are walked in search-path order. */
  lemma {:induction false} SuiteStepsConcat(a: seq<string>, b: seq<string>,
                                            listdir: string -> Option<seq<string>>, isFile: string -> bool)
    ensures SuiteSteps(a + b, listdir, isFile) == SuiteSteps(a, listdir, isFile) + SuiteSteps(b, listdir, isFile)
    decreases |a|
  {
    if |a| > 0 {
      assert (a + b)[1..] == a[1..] + b;
      SuiteStepsConcat(a[1..], b, listdir, isFile);
      Seqs.Regroup(SuiteRoot(a[0], listdir, isFile), SuiteSteps(a[1..], listdir, isFile), SuiteSteps(b, listdir, isFile));
    } else {
      assert a + b == b;
    }
  }

  /** One listed suites folder yields exactly its regular `.json` files, in listing order. */
  lemma SuiteStepsOneRoot(root: string, listdir: string -> Option<seq<string>>, isFile: string -> bool)
    ensures listdir(root).None? ==> SuiteSteps([root], listdir, isFile) == [Unlisted(root)]
    ensures listdir(root).Some? ==>
      exists kept :: Seqs.FilterOf(kept, listdir(root).value, IsSuiteFile(root, isFile))
                     && SuiteSteps([root], listdir, isFile) == Entries(Paths(root, kept))
  {
    assert SuiteSteps([root], listdir, isFile) == SuiteRoot(root, listdir, isFile) + [];
    if listdir(root).Some? {
      var kept := Kept(listdir(root).value, IsSuiteFile(root, isFile));
      assert SuiteSteps([root], listdir, isFile) == Entries(Paths(root, kept));
    }
  }

  /** `name` is a regular `.json` file in the listed folder `root`. */
  predicate HoldsSuite(root: string, name: string, listdir: string -> Option<seq<string>>, isFile: string -> bool) {
    listdir(root).Some? && name in listdir(root).value && isFile(PosixPath.Join(root, name)) && Text.EndsWith(name, ".json")
  }

  /** The paths of some names under `root` are those of their members. */
  lemma PathsMember(root: string, names: seq<string>, p: string)
    ensures p in Paths(root, names) <==> exists n :: n in names && p == PosixPath.Join(root, n)
  {
    var files := Paths(root, names);
    if p in files {
      var k :| 0 <= k < |files| && files[k] == p;
      assert names[k] in names;
    }
    if exists n :: n in names && p == PosixPath.Join(root, n) {
      var n :| n in names && p == PosixPath.Join(root, n);
      var k :| 0 <= k < |names| && names[k] == n;
      assert files[k] == p;
    }
  }

  /** One folder yields the path of each of its regular `.json` files, and no other. */
  lemma SuiteRootEntries(root: string, listdir: string -> Option<seq<string>>, isFile: string -> bool, p: string)
    ensures Entry(p) in SuiteRoot(root, listdir, isFile) <==>
      exists n :: HoldsSuite(root, n, listdir, isFile) && p == PosixPath.Join(root, n)
  {
    if listdir(root).Some? {
      var names := listdir(root).value;
      var kept := Kept(names, IsSuiteFile(root, isFile));
      EntriesMember(Paths(root, kept), p);
      PathsMember(root, kept, p);
      assert forall n :: n in kept <==> HoldsSuite(root, n, listdir, isFile);
    }
  }

  /** A suite file is yielded exactly when it is a regular `.json` file of some listed folder. */
  lemma {:induction false} SuiteStepsEntries(roots: seq<string>, listdir: string -> Option<seq<string>>,
                                             isFile: string -> bool, p: string)
    ensures Entry(p) in SuiteSteps(roots, listdir, isFile) <==>
      exists i, n :: 0 <= i < |roots| && HoldsSuite(roots[i], n, listdir, isFile) && p == PosixPath.Join(roots[i], n)
    decreases |roots|
  {
    if |roots| > 0 {
      var rest := roots[1..];
      SuiteStepsEntries(rest, listdir, isFile, p);
      SuiteRootEntries(roots[0], listdir, isFile, p);
      assert SuiteSteps(roots, listdir, isFile) == SuiteRoot(roots[0], listdir, isFile) + SuiteSteps(rest, listdir, isFile);
      if exists i, n :: 0 <= i < |rest| && HoldsSuite(rest[i], n, listdir, isFile) && p == PosixPath.Join(rest[i], n) {
        var i, n :| 0 <= i < |rest| && HoldsSuite(rest[i], n, listdir, isFile) && p == PosixPath.Join(rest[i], n);
        assert rest[i] == roots[i + 1];
      }
      if exists i, n :: 0 <= i < |roots| && HoldsSuite(roots[i], n, listdir, isFile) && p == PosixPath.Join(roots[i], n) {
        var i, n :| 0 <= i < |roots| && HoldsSuite(roots[i], n, listdir, isFile) && p == PosixPath.Join(roots[i], n);
        if i > 0 {
          assert roots[i] == rest[i - 1];
        }
      }
    }
  }

  /** A benchmark step the search moves past: a skipped directory, or a definition with another id. */
  predicate SkipsBenchmark<B>(s: Step, load: string -> Result<B, Raised>, id: B -> string, target: string) {
    s.Unlisted? || (load(s.path).Ok? && id(load(s.path).value) != target)
  }

  /**
   * `find_benchmark`: the first benchmark along the walk whose id matches.
   * Definitions are loaded one at a time, so a definition that fails to load
   * ends the search only when it comes before the match.
   */
  function FindBenchmark<B>(steps: seq<Step>, load: string -> Result<B, Raised>, id: B -> string, target: string)
    : (r: Result<Option<B>, Raised>)
    ensures r == Ok(None) <==> forall i :: 0 <= i < |steps| ==> SkipsBenchmark(steps[i], load, id, target)
    ensures r.Ok? && r.value.Some? ==>
      exists i :: 0 <= i < |steps| && steps[i].Entry? && load(steps[i].path) == Ok(r.value.value)
        && id(r.value.value) == target
        && forall j :: 0 <= j < i ==> SkipsBenchmark(steps[j], load, id, target)
    ensures r.Err? ==>
      exists i :: 0 <= i < |steps| && steps[i].Entry? && load(steps[i].path) == Err(r.error)
        && forall j :: 0 <= j < i ==> SkipsBenchmark(steps[j], load, id, target)
    decreases |steps|
  {
    if |steps| == 0 then Ok(None)
    else
      var r: Result<Option<B>, Raised> :=
        match steps[0]
        case Unlisted(_) => FindBenchmark(steps[1..], load, id, target)
        case Entry(p) =>
          match load(p)
          case Err(e) => Err(e)
          case Ok(b) => if id(b) == target then Ok(Some(b)) else FindBenchmark(steps[1..], load, id, target);
      assert forall j :: 1 <= j < |steps| ==> steps[j] == steps[1..][j - 1];
      r
  }

  /** A suite step the search moves past: a definition whose name does not start with the search string. */
  predicate SkipsSuite<S>(s: Step, load: string -> Result<S, Raised>, name: S -> string, search: string) {
    s.Entry? && load(s.path).Ok? && !Text.StartsWith(name(load(s.path).value), search)
  }

  /**
   * `find_suite`: the first suite along the walk whose name starts with the
   * search string. Reaching a root that cannot be listed raises.
   */
  function FindSuite<S>(steps: seq<Step>, load: string -> Result<S, Raised>, name: S -> string, search: string)
    : (r: Result<Option<S>, Raised>)
    ensures r == Ok(None) <==> forall i :: 0 <= i < |steps| ==> SkipsSuite(steps[i], load, name, search)
    ensures r.Ok? && r.value.Some? ==>
      exists i :: 0 <= i < |steps| && steps[i].Entry? && load(steps[i].path) == Ok(r.value.value)
        && Text.StartsWith(name(r.value.value), search)
        && forall j :: 0 <= j < i ==> SkipsSuite(steps[j], load, name, search)
    ensures r.Err? ==>
      exists i :: 0 <= i < |steps|
        && (if steps[i].Unlisted? then r.error == NotFound(steps[i].dir) else load(steps[i].path) == Err(r.error))
        && forall j :: 0 <= j < i ==> SkipsSuite(steps[j], load, name, search)
    decreases |steps|
  {
    if |steps| == 0 then Ok(None)
    else
      var r: Result<Option<S>, Raised> :=
        match steps[0]
        case Unlisted(d) => Err(NotFound(d))
        case Entry(p) =>
          match load(p)
          case Err(e) => Err(e)
          case Ok(s) => if Text.StartsWith(name(s), search) then Ok(Some(s)) else FindSuite(steps[1..], load, name, search);
      assert forall j :: 1 <= j < |steps| ==> steps[j] == steps[1..][j - 1];
      r
  }
}
