/**
 * The Phoronix test-profile index: profile directory names `<name>-<version>`
 * grouped into a name-to-versions table, built once on first use, and the
 * existence and install-path rules that read it.
 */
module PhoronixIndex {
  import opened Wrappers
  import opened Exceptions
  import Text
  import Dicts
  import PosixPath

  /** Profile name to its versions, in the order they were found. */
  type Index = Dicts.Dict<string, seq<string>>

  /** Every name the index holds has at least one version. */
  predicate WellFormed(index: Index) {
    forall i :: 0 <= i < |index| ==> |index[i].1| > 0
  }

  /**
   * `dir.rsplit('-', 1)` unpacked into two names: the part before the last
   * `-` and the part after it; `None` (a `ValueError` in the source) when
   * there is no `-`.
   */
  function SplitVersion(dir: string): (r: Option<(string, string)>)
    ensures r.None? <==> '-' !in dir
    ensures r.Some? ==> dir == r.value.0 + "-" + r.value.1 && '-' !in r.value.1
  {
    if '-' !in dir then None
    else
      var k := Text.LastIndexOf(dir, '-');
      assert dir == dir[..k] + "-" + dir[k + 1..];
      Some((dir[..k], dir[k + 1..]))
  }

  /** Splitting a rebuilt `name-version` gives back the parts when the version has no `-`. */
  lemma SplitJoin(name: string, version: string)
    requires '-' !in version
    ensures SplitVersion(name + "-" + version) == Some((name, version))
  {
    var d := name + "-" + version;
    var k := Text.LastIndexOf(d, '-');
    assert d[|name|] == '-';
    assert d[|name| + 1..] == version;
    assert k == |name|;
    assert d[..k] == name;
  }

  /** Adds one version under a name: appended to its list, or a new one-element list. */
  function Add(index: Index, name: string, version: string): (r: Index)
    requires WellFormed(index)
    ensures WellFormed(r)
  {
    var r := Dicts.Put(index, name, if Dicts.HasKey(index, name) then Dicts.Get(index, name) + [version] else [version]);
    assert forall i :: 0 <= i < |r| ==> r[i] in index || r[i].0 == name;
    r
  }

  /** The versions under `name`, or none when the name is absent. */
  function Lookup(index: Index, name: string): seq<string> {
    if Dicts.HasKey(index, name) then Dicts.Get(index, name) else []
  }

  /** Adding a version appends it to that name's list and to no other. */
  lemma AddLookup(index: Index, name: string, version: string, other: string)
    requires WellFormed(index)
    ensures Lookup(Add(index, name, version), other)
            == Lookup(index, other) + (if other == name then [version] else [])
  {
    var v := if Dicts.HasKey(index, name) then Dicts.Get(index, name) + [version] else [version];
    if other != name {
      Dicts.PutOther(index, name, v, other);
    }
  }

  /** The versions of the directories named `name`, in directory order. */
  function VersionsOf(dirs: seq<string>, name: string): seq<string> {
    if |dirs| == 0 then []
    else
      var rest := VersionsOf(dirs[1..], name);
      match SplitVersion(dirs[0])
      case Some((n, v)) => if n == name then [v] + rest else rest
      case None => rest
  }

  /** Every directory name holds a `-`. */
  predicate Splittable(dirs: seq<string>) {
    forall i :: 0 <= i < |dirs| ==> '-' in dirs[i]
  }

  /** A version is listed under a name exactly when `name-version` is one of the directories. */
  lemma {:induction false} VersionsOfMember(dirs: seq<string>, name: string, version: string)
    ensures version in VersionsOf(dirs, name) <==> '-' !in version && name + "-" + version in dirs
    decreases |dirs|
  {
    if |dirs| > 0 {
      VersionsOfMember(dirs[1..], name, version);
      assert dirs == [dirs[0]] + dirs[1..];
      if '-' !in version {
        SplitJoin(name, version);
      }
    }
  }

  /**
   * The loop of `generate_dict` over the sorted listing: each directory is
   * split and its version added under its name. A directory with no `-`
   * stops the loop with `ValueError`; the entries added before it stay.
   */
  function AddAll(index: Index, dirs: seq<string>): (r: (Index, Option<Raised>))
    requires WellFormed(index)
    ensures WellFormed(r.0)
    ensures r.1.None? <==> Splittable(dirs)
    ensures r.1.Some? ==> r.1.value.ValueError?
    decreases |dirs|
  {
    if |dirs| == 0 then (index, None)
    else
      match SplitVersion(dirs[0])
      case None => (index, Some(ValueError("not enough values to unpack")))
      case Some((n, v)) =>
        var r := AddAll(Add(index, n, v), dirs[1..]);
        assert Splittable(dirs) <==> Splittable(dirs[1..]) by {
          assert forall i :: 0 < i < |dirs| ==> dirs[i] == dirs[1..][i - 1];
        }
        r
  }

  /** One turn of the loop: the first directory is added, then the rest. */
  lemma AddAllStep(index: Index, dirs: seq<string>)
    requires WellFormed(index)
    requires |dirs| > 0 && '-' in dirs[0]
    ensures var s := SplitVersion(dirs[0]).value;
            AddAll(index, dirs) == AddAll(Add(index, s.0, s.1), dirs[1..])
  {
  }

  /** The versions of a non-empty listing: the first directory's, if named `name`, then the rest. */
  lemma VersionsOfStep(dirs: seq<string>, name: string)
    requires |dirs| > 0 && '-' in dirs[0]
    ensures var s := SplitVersion(dirs[0]).value;
            VersionsOf(dirs, name) == (if s.0 == name then [s.1] else []) + VersionsOf(dirs[1..], name)
  {
  }

  /** Concatenation regrouped, stated apart from the index so the solver sees only lists. */
  lemma Regroup(a: seq<string>, b: seq<string>, c: seq<string>)
    ensures (a + b) + c == a + (b + c)
  {
  }

  /** After the loop, each name lists its earlier versions followed by the new ones, in order. */
  lemma {:induction false} AddAllLookup(index: Index, dirs: seq<string>, name: string)
    requires WellFormed(index)
    requires Splittable(dirs)
    ensures Lookup(AddAll(index, dirs).0, name) == Lookup(index, name) + VersionsOf(dirs, name)
    decreases |dirs|
  {
    if |dirs| > 0 {
      assert '-' in dirs[0];
      var s := SplitVersion(dirs[0]).value;
      var next := Add(index, s.0, s.1);
      assert Splittable(dirs[1..]) by {
        assert forall i :: 0 <= i < |dirs[1..]| ==> dirs[1..][i] == dirs[i + 1];
      }
      AddAllStep(index, dirs);
      VersionsOfStep(dirs, name);
      AddAllLookup(next, dirs[1..], name);
      AddLookup(index, s.0, s.1, name);
      var here: seq<string> := if s.0 == name then [s.1] else [];
      var l, rest := Lookup(index, name), VersionsOf(dirs[1..], name);
      Regroup(l, here, rest);
    }
  }

  /** Sorting keeps exactly the same directory names. */
  lemma SortKeeps(listing: seq<string>)
    ensures forall d :: d in Text.Sort(listing) <==> d in listing
    ensures Splittable(Text.Sort(listing)) <==> Splittable(listing)
  {
    var sorted := Text.Sort(listing);
    forall d
      ensures d in sorted <==> d in listing
    {
      assert d in multiset(sorted) <==> d in multiset(listing);
    }
    forall i | 0 <= i < |sorted|
      ensures Splittable(listing) ==> '-' in sorted[i]
    {
      assert sorted[i] in listing;
    }
    forall i | 0 <= i < |listing|
      ensures Splittable(sorted) ==> '-' in listing[i]
    {
      assert listing[i] in sorted;
    }
  }

  /** `generate_dict`: the listing, sorted, added to the index. */
  function Generate(index: Index, listing: seq<string>): (r: (Index, Option<Raised>))
    requires WellFormed(index)
    ensures WellFormed(r.0)
    ensures r.1.None? <==> Splittable(listing)
  {
    var sorted := Text.Sort(listing);
    SortKeeps(listing);
    AddAll(index, sorted)
  }

  /** The index after a call, and what the call returned or raised. */
  datatype Answer<T> = Answer(index: Index, result: Result<T, Raised>)

  /** `bench_dict`, built on demand: the listing is read only while the index is empty. */
  function Loaded(index: Index, listing: seq<string>): (r: (Index, Option<Raised>))
    requires WellFormed(index)
    ensures WellFormed(r.0)
    ensures |index| > 0 ==> r == (index, None)
  {
    if |index| == 0 then Generate(index, listing) else (index, None)
  }

  /** A version argument counts only when given and non-empty. */
  predicate Given(version: Option<string>) {
    version.Some? && version.value != ""
  }

  /**
   * `phoronix_exists`: an empty name raises before the index is touched; an
   * unknown name raises even when a version is given; a known name answers
   * whether the given version is listed, or true when none is given.
   */
  function Exists(index: Index, listing: seq<string>, name: string, version: Option<string>): (r: Answer<bool>)
    requires WellFormed(index)
    ensures WellFormed(r.index)
    ensures name == "" ==> r == Answer(index, Err(Failure("Please provide a non-empty benchmark name.")))
    ensures |index| > 0 ==> r.index == index
    ensures r.result.Ok? ==> Dicts.HasKey(r.index, name)
    ensures r.result.Ok? ==> (r.result.value <==> !Given(version) || version.value in Dicts.Get(r.index, name))
  {
    if name == "" then Answer(index, Err(Failure("Please provide a non-empty benchmark name.")))
    else
      var (built, raised) := Loaded(index, listing);
      if raised.Some? then Answer(built, Err(raised.value))
      else if !Dicts.HasKey(built, name) then Answer(built, Err(Failure("Benchmark name not valid.")))
      else if Given(version) then Answer(built, Ok(version.value in Dicts.Get(built, name)))
      else Answer(built, Ok(true))
  }

  /** Loading into an empty index lists, under each name, its versions in sorted directory order. */
  lemma FirstLoad(listing: seq<string>, name: string)
    requires Splittable(listing)
    ensures Loaded([], listing).1.None?
    ensures Dicts.HasKey(Loaded([], listing).0, name) <==> |VersionsOf(Text.Sort(listing), name)| > 0
    ensures Dicts.HasKey(Loaded([], listing).0, name) ==>
              Dicts.Get(Loaded([], listing).0, name) == VersionsOf(Text.Sort(listing), name)
  {
    var built := Loaded([], listing).0;
    AddAllLookup([], Text.Sort(listing), name);
    assert Lookup(built, name) == VersionsOf(Text.Sort(listing), name);
    if Dicts.HasKey(built, name) {
      var i := Dicts.IndexOfKey(built, name);
      assert |built[i].1| > 0;
    }
  }

  /**
   * On a first call (empty index) over a listing of well-formed directory
   * names, the answer is decided by the listing alone: an error exactly when
   * the name is empty or no directory is `name-<something>`; otherwise a
   * given version is accepted exactly when `name-version` is a directory.
   */
  lemma ExistsOnListing(listing: seq<string>, name: string, version: Option<string>)
    requires Splittable(listing)
    ensures Exists([], listing, name, version).result.Err?
            <==> name == "" || |VersionsOf(Text.Sort(listing), name)| == 0
    ensures Exists([], listing, name, version).result.Ok? ==>
              (Exists([], listing, name, version).result.value
               <==> !Given(version) || ('-' !in version.value && name + "-" + version.value in listing))
  {
    if name != "" {
      FirstLoad(listing, name);
      if Given(version) {
        VersionsOfMember(Text.Sort(listing), name, version.value);
        SortKeeps(listing);
      }
    }
  }

  /** Last element of a non-empty list. */
  function Last(s: seq<string>): string
    requires |s| > 0
  {
    s[|s| - 1]
  }

  /**
   * `phoronix_install` up to reading `downloads.xml`: when the profile
   * exists, the directory `<root>/<name>-<version>`, where a missing version
   * stands for the last one listed under the name; `None` when the given
   * version is not listed.
   */
  function InstallPath(index: Index, listing: seq<string>, root: string, name: string, version: Option<string>)
    : (r: Answer<Option<string>>)
    requires WellFormed(index)
    ensures WellFormed(r.index)
    ensures r.index == Exists(index, listing, name, version).index
    ensures r.result.Err? <==> Exists(index, listing, name, version).result.Err?
    ensures r.result.Ok? ==> (r.result.value.Some? <==> Exists(index, listing, name, version).result.value)
    ensures r.result.Ok? && r.result.value.Some? && Given(version) ==>
              r.result.value.value == PosixPath.Join(root, name + "-" + version.value)
    ensures r.result.Ok? && r.result.value.Some? && !Given(version) ==>
              && Dicts.HasKey(r.index, name) && |Dicts.Get(r.index, name)| > 0
              && r.result.value.value == PosixPath.Join(root, name + "-" + Last(Dicts.Get(r.index, name)))
  {
    var a := Exists(index, listing, name, version);
    if a.result.Err? then Answer(a.index, Err(a.result.error))
    else if !a.result.value then Answer(a.index, Ok(None))
    else
      var versions := Dicts.Get(a.index, name);
      assert versions == a.index[Dicts.IndexOfKey(a.index, name)].1;
      var v := if Given(version) then version.value else Last(versions);
      Answer(a.index, Ok(Some(PosixPath.Join(root, name + "-" + v))))
  }

  /**
   * On a first call without a version, the path built is that of a listed
   * directory: the last one, in sorted order, whose name part is `name`.
   */
  lemma InstallDefaultIsListed(listing: seq<string>, root: string, name: string)
    requires Splittable(listing)
    requires InstallPath([], listing, root, name, None).result.Ok?
    ensures InstallPath([], listing, root, name, None).result.value.Some?
    ensures var versions := VersionsOf(Text.Sort(listing), name);
            |versions| > 0
            && name + "-" + Last(versions) in listing
            && InstallPath([], listing, root, name, None).result.value.value
               == PosixPath.Join(root, name + "-" + Last(versions))
  {
    var sorted := Text.Sort(listing);
    FirstLoad(listing, name);
    var versions := VersionsOf(sorted, name);
    assert Last(versions) in versions;
    VersionsOfMember(sorted, name, Last(versions));
    SortKeeps(listing);
  }
}
