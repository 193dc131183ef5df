/**
 * Setup of the Blender benchmark launcher: which archive to fetch for the
 * host system, the progress hook, and the path-traversal guard applied to a
 * tar archive before it is unpacked.
 */
module BlenderSetup {
  import opened Wrappers
  import opened Exceptions
  import opened ProgressDisplay
  import Text
  import PosixPath

  // ---------------------------------------------------------------------------
  // Progress hook
  // ---------------------------------------------------------------------------

  /**
   * `MyProgressBar.__call__`: the amount shown is `block_num * block_size`,
   * and the bar finishes once it reaches `total_size`. There is no case for
   * an unknown size.
   */
  function Hook(blockNum: int, blockSize: int, totalSize: int): (r: Display)
    ensures r.Finish? <==> blockNum * blockSize >= totalSize
    ensures r.Update? ==> r.downloaded == blockNum * blockSize
  {
    var downloaded := blockNum * blockSize;
    if downloaded < totalSize then Update(downloaded) else Finish
  }

  /**
   * `urlretrieve` reports an unknown size as -1, and for that size the bar
   * finishes on the very first callback, block 0 included.
   */
  lemma UnknownSizeFinishesAtOnce(blockNum: nat, blockSize: nat)
    ensures Hook(blockNum, blockSize, -1) == Finish
  {
  }

  // ---------------------------------------------------------------------------
  // Path-traversal guard
  // ---------------------------------------------------------------------------

  /**
   * `is_within_directory`: the absolute target starts, character by
   * character, with the absolute directory (`os.path.commonprefix`).
   */
  predicate IsWithinDirectory(directory: string, target: string, cwd: string) {
    var absDirectory := PosixPath.AbsPath(directory, cwd);
    PosixPath.CommonPrefix(absDirectory, PosixPath.AbsPath(target, cwd)) == absDirectory
  }

  /** The guard is exactly a string-prefix test on the absolute paths. */
  lemma WithinIsPrefix(directory: string, target: string, cwd: string)
    ensures IsWithinDirectory(directory, target, cwd)
            <==> Text.StartsWith(PosixPath.AbsPath(target, cwd), PosixPath.AbsPath(directory, cwd))
  {
    PosixPath.CommonPrefixIsFirst(PosixPath.AbsPath(directory, cwd), PosixPath.AbsPath(target, cwd));
  }

  /** A plain path component: kept by `normpath`, not `..`, no slash. */
  predicate Plain(c: string) {
    PosixPath.Kept(c) && c != ".." && '/' !in c
  }

  /**
   * Being a character prefix is not being inside: for an archive unpacked
   * into `/a/b`, a member named `../b<s>/x` lands in the sibling directory
   * `/a/b<s>`, outside `/a/b/`, and the guard lets it through (for instance
   * `/a/bin2/x` against `/a/bin`).
   */
  lemma SiblingPassesGuard(a: string, b: string, s: string, x: string, cwd: string)
    requires Plain(a) && Plain(b) && Plain(x) && Plain(b + s) && s != ""
    ensures var directory := "/" + a + "/" + b;
            var member := PosixPath.Join(directory, "../" + (b + s) + "/" + x);
            PosixPath.AbsPath(member, cwd) == "/" + a + "/" + (b + s) + "/" + x
            && !Text.StartsWith(PosixPath.AbsPath(member, cwd), directory + "/")
            && IsWithinDirectory(directory, member, cwd)
  {
    var directory := "/" + a + "/" + b;
    var name := "../" + (b + s) + "/" + x;
    var member := PosixPath.Join(directory, name);
    var target := "/" + a + "/" + (b + s) + "/" + x;
    assert PosixPath.AbsPath(member, cwd) == target by {
      assert member == directory + "/" + name by {
        assert name[0] == '.';
        assert directory[|directory| - 1..] == b[|b| - 1..];
        assert b[|b| - 1] in b;
      }
      assert member == "/" + a + "/" + b + "/" + ("../" + (b + s) + "/" + x);
      MemberNormal(a, b, b + s, x, cwd);
    }
    assert PosixPath.AbsPath(directory, cwd) == directory by {
      DirectoryNormal(a, b, cwd);
    }
    assert Text.StartsWith(target, directory) && !Text.StartsWith(target, directory + "/") by {
      SiblingTarget(a, b, s, x);
      assert s[0] in b + s;
      ExtendsWithoutSlash(directory, s + "/" + x);
    }
    WithinIsPrefix(directory, member, cwd);
  }

  /** The sibling's path is the directory's path continued by the suffix. */
  lemma SiblingTarget(a: string, b: string, s: string, x: string)
    ensures "/" + a + "/" + (b + s) + "/" + x == ("/" + a + "/" + b) + (s + "/" + x)
  {
  }

  /** A path continued by text that does not start with `/` starts with it, but not with it plus `/`. */
  lemma ExtendsWithoutSlash(directory: string, rest: string)
    requires rest != "" && rest[0] != '/'
    ensures Text.StartsWith(directory + rest, directory)
    ensures !Text.StartsWith(directory + rest, directory + "/")
  {
    assert (directory + rest)[..|directory|] == directory;
    assert (directory + rest)[|directory|] == rest[0];
    assert (directory + "/")[|directory|] == '/';
  }

  /** `/a/b` is already normal. */
  lemma DirectoryNormal(a: string, b: string, cwd: string)
    requires Plain(a) && Plain(b)
    ensures PosixPath.AbsPath("/" + a + "/" + b, cwd) == "/" + a + "/" + b
  {
    var p := "/" + a + "/" + b;
    var comps := ["", a, b];
    assert PosixPath.AbsPath(p, cwd) == "/" + Text.Join([a, b], "/") by {
      assert Text.Split(p, '/') == comps by {
        DirectoryJoin(a, b);
        assert '/' !in "";
        SplitOfJoin(comps, '/', p);
      }
      CollapseTwo(a, b);
      RootedNormal(p, comps, [a, b], cwd);
    }
    assert Text.Join([a, b], "/") == a + "/" + b by {
      JoinParts([a, b], "/");
    }
    RootTwo(a, b);
  }

  /** Joining the components of `/a/b` back. */
  lemma DirectoryJoin(a: string, b: string)
    ensures Text.Join(["", a, b], "/") == "/" + a + "/" + b
  {
    JoinParts(["", a, b], "/");
    assert "" + "/" == "/";
  }

  /** A leading `/` before a two-part path, regrouped. */
  lemma RootTwo(a: string, b: string)
    ensures "/" + (a + "/" + b) == "/" + a + "/" + b
  {
  }

  /** `/a/b/../c/x` normalises to `/a/c/x`. */
  lemma MemberNormal(a: string, b: string, c: string, x: string, cwd: string)
    requires Plain(a) && Plain(b) && Plain(c) && Plain(x)
    ensures PosixPath.AbsPath("/" + a + "/" + b + "/" + ("../" + c + "/" + x), cwd) == "/" + a + "/" + c + "/" + x
  {
    var p := "/" + a + "/" + b + "/" + ("../" + c + "/" + x);
    var comps := ["", a, b, "..", c, x];
    assert PosixPath.AbsPath(p, cwd) == "/" + Text.Join([a, c, x], "/") by {
      MemberComponents(a, b, c, x);
      CollapseUpOne(a, b, c, x);
      RootedNormal(p, comps, [a, c, x], cwd);
    }
    assert Text.Join([a, c, x], "/") == a + "/" + c + "/" + x by {
      JoinParts([a, c, x], "/");
    }
    RootThree(a, c, x);
  }

  /** A leading `/` before a three-part path, regrouped. */
  lemma RootThree(a: string, c: string, x: string)
    ensures "/" + (a + "/" + c + "/" + x) == "/" + a + "/" + c + "/" + x
  {
  }

  /** The components of `/a/b/../c/x`. */
  lemma MemberComponents(a: string, b: string, c: string, x: string)
    requires Plain(a) && Plain(b) && Plain(c) && Plain(x)
    ensures Text.Split("/" + a + "/" + b + "/" + ("../" + c + "/" + x), '/') == ["", a, b, "..", c, x]
  {
    var comps := ["", a, b, "..", c, x];
    var p := "/" + a + "/" + b + "/" + ("../" + c + "/" + x);
    assert '/' !in "" && '/' !in "..";
    assert p == Text.Join(comps, "/") by {
      MemberJoin(a, b, c, x);
    }
    SplitOfJoin(comps, '/', p);
  }

  /** Joining the components of `/a/b/../c/x` back, one separator at a time. */
  lemma MemberJoin(a: string, b: string, c: string, x: string)
    ensures Text.Join(["", a, b, "..", c, x], "/") == "/" + a + "/" + b + "/" + ("../" + c + "/" + x)
  {
    var comps := ["", a, b, "..", c, x];
    var m := "../" + c + "/" + x;
    var j3 := Text.Join(comps[3..], "/");
    assert j3 == m by {
      Text.JoinCons(comps[3..], "/");
      Text.JoinCons(comps[4..], "/");
      assert comps[3..][1..] == comps[4..] && comps[4..][1..] == comps[5..];
      assert Text.Join(comps[5..], "/") == x;
    }
    var j2 := Text.Join(comps[2..], "/");
    assert j2 == b + "/" + m by {
      Text.JoinCons(comps[2..], "/");
      assert comps[2..][1..] == comps[3..];
    }
    var j1 := Text.Join(comps[1..], "/");
    assert j1 == a + "/" + j2 by {
      Text.JoinCons(comps[1..], "/");
      assert comps[1..][1..] == comps[2..];
    }
    assert Text.Join(comps, "/") == "/" + j1 by {
      Text.JoinCons(comps, "/");
    }
    assert "/" + (a + "/" + (b + "/" + m)) == "/" + a + "/" + b + "/" + m;
  }

  /** `s.split(c)` recovers the parts `s` was joined from. */
  lemma SplitOfJoin(parts: seq<string>, c: char, s: string)
    requires |parts| >= 1 && s == Text.Join(parts, [c])
    requires forall i :: 0 <= i < |parts| ==> c !in parts[i]
    ensures Text.Split(s, c) == parts
  {
    Text.SplitJoin(parts, c);
  }

  /** Joins of two or three parts, written out. */
  lemma JoinParts(parts: seq<string>, sep: string)
    requires 2 <= |parts| <= 3
    ensures |parts| == 2 ==> Text.Join(parts, sep) == parts[0] + sep + parts[1]
    ensures |parts| == 3 ==> Text.Join(parts, sep) == parts[0] + sep + parts[1] + sep + parts[2]
  {
    Text.JoinCons(parts, sep);
    assert Text.Join(parts[|parts| - 1..], sep) == parts[|parts| - 1];
    if |parts| == 3 {
      Text.JoinCons(parts[1..], sep);
      assert parts[1..][1..] == parts[2..];
    }
  }

  /** `normpath` of a path with one leading slash, from its components and what survives of them. */
  lemma RootedNormal(p: string, comps: seq<string>, kept: seq<string>, cwd: string)
    requires |p| >= 2 && p[0] == '/' && p[1] != '/'
    requires Text.Split(p, '/') == comps
    requires PosixPath.Collapse(comps, true, []) == kept
    ensures PosixPath.AbsPath(p, cwd) == "/" + Text.Join(kept, "/")
  {
    assert p[..1] == "/";
    assert p[..2] != "//";
    assert PosixPath.InitialSlashes(p) == 1;
    assert PosixPath.Slashes(1) == "/";
  }

  /** Two ordinary components after the root survive unchanged. */
  lemma CollapseTwo(a: string, b: string)
    requires PosixPath.Kept(a) && a != ".." && PosixPath.Kept(b) && b != ".."
    ensures PosixPath.Collapse(["", a, b], true, []) == [a, b]
  {
    PosixPath.CollapseSkip("", [a, b], true, []);
    PosixPath.CollapseKeep(a, [b], true, []);
    PosixPath.CollapseKeep(b, [], true, [a]);
  }

  /** `..` after the second component removes it. */
  lemma CollapseUpOne(a: string, b: string, c: string, d: string)
    requires PosixPath.Kept(a) && a != ".." && PosixPath.Kept(b) && b != ".."
    requires PosixPath.Kept(c) && c != ".." && PosixPath.Kept(d) && d != ".."
    ensures PosixPath.Collapse(["", a, b, "..", c, d], true, []) == [a, c, d]
  {
    var t3 := [c, d];
    var t1 := [b, ".."] + t3;
    assert ["", a, b, "..", c, d] == ["", a] + t1;
    CollapseRootFirst(a, t1);
    CollapseBackOut(a, b, t3);
    CollapseLastTwo(a, c, d);
  }

  /** The root's empty component is dropped and the first ordinary one kept. */
  lemma CollapseRootFirst(a: string, rest: seq<string>)
    requires PosixPath.Kept(a) && a != ".."
    ensures PosixPath.Collapse(["", a] + rest, true, []) == PosixPath.Collapse(rest, true, [a])
  {
    assert ["", a] + rest == [""] + ([a] + rest);
    PosixPath.CollapseSkip("", [a] + rest, true, []);
    PosixPath.CollapseKeep(a, rest, true, []);
    assert [] + [a] == [a];
  }

  /** A component followed by `..` leaves the result as it was. */
  lemma CollapseBackOut(a: string, b: string, rest: seq<string>)
    requires PosixPath.Kept(a) && a != ".." && PosixPath.Kept(b) && b != ".."
    ensures PosixPath.Collapse([b, ".."] + rest, true, [a]) == PosixPath.Collapse(rest, true, [a])
  {
    assert [b, ".."] + rest == [b] + ([".."] + rest);
    PosixPath.CollapseKeep(b, [".."] + rest, true, [a]);
    PosixPath.CollapseUp(rest, true, [a, b]);
    assert [a, b][..1] == [a];
  }

  /** Two ordinary components after a kept one are both kept. */
  lemma CollapseLastTwo(a: string, c: string, d: string)
    requires PosixPath.Kept(a) && a != ".." && PosixPath.Kept(c) && c != ".." && PosixPath.Kept(d) && d != ".."
    ensures PosixPath.Collapse([c, d], true, [a]) == [a, c, d]
  {
    assert [c, d] == [c] + [d] && [d] == [d] + [];
    PosixPath.CollapseKeep(c, [d], true, [a]);
    PosixPath.CollapseKeep(d, [], true, [a, c]);
  }

  /** Position of the first name that fails `ok`, or the length when every name passes. */
  method FirstFailing(names: seq<string>, ok: string -> bool) returns (i: nat)
    ensures i <= |names|
    ensures forall k :: 0 <= k < i ==> ok(names[k])
    ensures i < |names| ==> !ok(names[i])
  {
    i := 0;
    while i < |names| && ok(names[i])
      invariant i <= |names|
      invariant forall k :: 0 <= k < i ==> ok(names[k])
    {
      i := i + 1;
    }
  }

  /**
   * `safe_extract`: every member's path `join(path, name)` is checked first;
   * one outside the directory raises before anything is extracted. Otherwise
   * all members are extracted, and the paths written are returned in order.
   */
  method SafeExtract(members: seq<string>, path: string, cwd: string) returns (r: Result<seq<string>, Raised>)
    ensures r.Ok? <==> forall i :: 0 <= i < |members| ==>
                        IsWithinDirectory(path, PosixPath.Join(path, members[i]), cwd)
    ensures r.Err? ==> r.error == Failure("Attempted Path Traversal in Tar File")
    ensures r.Ok? ==> |r.value| == |members|
                      && forall i :: 0 <= i < |members| ==> r.value[i] == PosixPath.Join(path, members[i])
  {
    var inside := m => IsWithinDirectory(path, PosixPath.Join(path, m), cwd);
    var i := FirstFailing(members, inside);
    if i < |members| {
      assert !inside(members[i]);
      return Err(Failure("Attempted Path Traversal in Tar File"));
    }
    assert forall k :: 0 <= k < |members| ==> inside(members[k]);
    return Ok(seq(|members|, k requires 0 <= k < |members| => PosixPath.Join(path, members[k])));
  }

  // ---------------------------------------------------------------------------
  // Which launcher to fetch
  // ---------------------------------------------------------------------------

  const BaseUrl := "https://download.blender.org/release/BlenderBenchmark2.0/launcher/"
  const LauncherVersion := "3.0.0"

  /** How the downloaded archive is opened. */
  datatype Unpack = Tar | Zip

  /** `platform.system().lower()`, with darwin renamed `macos` and given a zip archive; every other system a `tar.gz`. */
  function Launcher(system: string): (r: (string, string))
    ensures Text.LowerAscii(system) == "darwin" ==> r == ("macos", "zip")
    ensures Text.LowerAscii(system) != "darwin" ==> r == (Text.LowerAscii(system), "tar.gz")
  {
    var s := Text.LowerAscii(system);
    if s == "darwin" then ("macos", "zip") else (s, "tar.gz")
  }

  /** The archive is unpacked with `tarfile` on Linux and with `zipfile` everywhere else. */
  function UnpackerFor(systemName: string): (u: Unpack)
    ensures u == Tar <==> systemName == "linux"
  {
    if systemName == "linux" then Tar else Zip
  }

  /** A Windows host is sent a `tar.gz` and then opens it as a zip archive. */
  lemma WindowsArchiveMismatch()
    ensures Launcher("Windows") == ("windows", "tar.gz")
    ensures UnpackerFor(Launcher("Windows").0) == Zip
  {
    assert Text.LowerAscii("Windows") == "windows";
  }

  /** The extension matches the unpacker: a `tar.gz` for Linux, a zip for everything else. */
  function LauncherFixed(system: string): (r: (string, string))
    ensures r.1 == "tar.gz" <==> UnpackerFor(r.0) == Tar
    ensures r.1 == "zip" <==> UnpackerFor(r.0) == Zip
    ensures Text.LowerAscii(system) == "darwin" ==> r == ("macos", "zip")
    ensures Text.LowerAscii(system) == "linux" ==> r == ("linux", "tar.gz")
  {
    var s := Text.LowerAscii(system);
    if s == "darwin" then ("macos", "zip")
    else if s == "linux" then (s, "tar.gz")
    else (s, "zip")
  }

  /** Everything in a launcher URL before the system name. */
  const LauncherPrefix := BaseUrl + "benchmark-launcher-cli-" + LauncherVersion + "-"

  /** `<base>benchmark-launcher-cli-<version>-<system>.<extension>` */
  function LauncherUrl(systemName: string, extension: string): (r: string)
    ensures Text.StartsWith(r, LauncherPrefix)
    ensures Text.EndsWith(r, "." + extension)
    ensures |r| == |LauncherPrefix| + |systemName| + 1 + |extension|
    ensures r[|LauncherPrefix|..|LauncherPrefix| + |systemName|] == systemName
  {
    var head := LauncherPrefix;
    var r := head + systemName + "." + extension;
    assert r == head + (systemName + "." + extension);
    assert r == (head + systemName) + ("." + extension);
    r
  }

  /** What the setup script does. */
  datatype Action = AlreadyInstalled | Fetch(url: string, unpack: Unpack)

  /**
   * The main block as written: nothing is fetched when the launcher binary is
   * already in `bin`; otherwise the archive `Launcher` names is fetched, a zip
   * on Darwin and a `tar.gz` everywhere else, and unpacked with `tarfile` only
   * on Linux.
   */
  function SetupAction(system: string, binaryPresent: bool): (r: Action)
    ensures binaryPresent <==> r == AlreadyInstalled
    ensures r.Fetch? ==> (r.unpack == Tar <==> Text.LowerAscii(system) == "linux")
    ensures r.Fetch? ==> Text.EndsWith(r.url, if Text.LowerAscii(system) == "darwin" then ".zip" else ".tar.gz")
  {
    if binaryPresent then AlreadyInstalled
    else
      var (name, extension) := Launcher(system);
      Fetch(LauncherUrl(name, extension), UnpackerFor(name))
  }

  /** A Windows host without the launcher fetches the Windows `tar.gz` and opens it as a zip. */
  lemma SetupActionWindows()
    ensures SetupAction("Windows", false) == Fetch(LauncherUrl("windows", "tar.gz"), Zip)
  {
    WindowsArchiveMismatch();
  }

  /**
   * The main block with `LauncherFixed`: the fetched archive's extension
   * always matches the library that unpacks it.
   */
  function SetupActionFixed(system: string, binaryPresent: bool): (r: Action)
    ensures binaryPresent <==> r == AlreadyInstalled
    ensures r.Fetch? ==> (r.unpack == Tar <==> Text.LowerAscii(system) == "linux")
    ensures r.Fetch? ==> Text.EndsWith(r.url, if r.unpack == Tar then ".tar.gz" else ".zip")
  {
    if binaryPresent then AlreadyInstalled
    else
      var (name, extension) := LauncherFixed(system);
      Fetch(LauncherUrl(name, extension), UnpackerFor(name))
  }

  /** On Linux and Darwin, the only hosts whose archive the script opens correctly, both versions act alike. */
  lemma SetupActionsAgree(system: string, binaryPresent: bool)
    requires Text.LowerAscii(system) in {"linux", "darwin"}
    ensures SetupAction(system, binaryPresent) == SetupActionFixed(system, binaryPresent)
  {
  }
}
