/**
 * The POSIX `os.path` functions the model needs: `join`, `normpath`,
 * `abspath` (with the working directory as an explicit input) and
 * `commonprefix`.
 */
module PosixPath {
  import Text

  /** `os.path.isabs(p)` */
  predicate IsAbs(p: string) {
    Text.StartsWith(p, "/")
  }

  /** `os.path.join(a, b)`: an absolute `b` replaces `a`; otherwise one '/' separates them. */
  function Join(a: string, b: string): (r: string)
    ensures IsAbs(b) ==> r == b
    ensures !IsAbs(b) ==> Text.StartsWith(r, a) && Text.EndsWith(r, b) && |a| + |b| <= |r| <= |a| + 1 + |b|
    ensures !IsAbs(b) && a != "" ==> r[|r| - |b| - 1] == '/'
  {
    if IsAbs(b) then b
    else if a == "" || Text.EndsWith(a, "/") then a + b
    else a + "/" + b
  }

  /** Joining onto the same directory keeps relative names apart. */
  lemma JoinInjective(a: string, x: string, y: string)
    requires !IsAbs(x) && !IsAbs(y)
    ensures Join(a, x) == Join(a, y) ==> x == y
  {
    var prefix := if a == "" || Text.EndsWith(a, "/") then a else a + "/";
    assert Join(a, x) == prefix + x && Join(a, y) == prefix + y;
    if Join(a, x) == Join(a, y) {
      assert x == Join(a, x)[|prefix|..];
      assert y == Join(a, y)[|prefix|..];
    }
  }

  /** The number of leading slashes `normpath` keeps: two exactly when there are exactly two. */
  function InitialSlashes(p: string): (n: nat)
    ensures n <= 2 && (n > 0 <==> IsAbs(p))
  {
    if !IsAbs(p) then 0
    else if Text.StartsWith(p, "//") && !Text.StartsWith(p, "///") then 2
    else 1
  }

  /** A component `normpath` keeps: not empty, not `.`. */
  predicate Kept(c: string) {
    c != "" && c != "."
  }

  /**
   * The component loop of `normpath`: empty and `.` components are dropped; `..`
   * removes the previous component, except that it is kept at the start of a
   * relative path or after another `..`, and dropped at the root.
   */
  function Collapse(comps: seq<string>, absolute: bool, acc: seq<string>): (r: seq<string>)
    requires forall i :: 0 <= i < |acc| ==> Kept(acc[i])
    requires absolute ==> forall i :: 0 <= i < |acc| ==> acc[i] != ".."
    ensures forall i :: 0 <= i < |r| ==> Kept(r[i])
    ensures absolute ==> forall i :: 0 <= i < |r| ==> r[i] != ".."
    ensures forall i :: 0 <= i < |r| ==> r[i] in acc || r[i] in comps
    decreases |comps|
  {
    if |comps| == 0 then acc
    else
      var c := comps[0];
      if !Kept(c) then Collapse(comps[1..], absolute, acc)
      else if c != ".." || (!absolute && |acc| == 0) || (|acc| > 0 && acc[|acc| - 1] == "..") then
        Collapse(comps[1..], absolute, acc + [c])
      else if |acc| > 0 then Collapse(comps[1..], absolute, acc[..|acc| - 1])
      else Collapse(comps[1..], absolute, acc)
  }

  /** An ordinary component is appended. */
  lemma CollapseKeep(c: string, comps: seq<string>, absolute: bool, acc: seq<string>)
    requires forall i :: 0 <= i < |acc| ==> Kept(acc[i])
    requires absolute ==> forall i :: 0 <= i < |acc| ==> acc[i] != ".."
    requires Kept(c) && c != ".."
    ensures Collapse([c] + comps, absolute, acc) == Collapse(comps, absolute, acc + [c])
  {
    assert ([c] + comps)[1..] == comps;
  }

  /** An empty or `.` component is dropped. */
  lemma CollapseSkip(c: string, comps: seq<string>, absolute: bool, acc: seq<string>)
    requires forall i :: 0 <= i < |acc| ==> Kept(acc[i])
    requires absolute ==> forall i :: 0 <= i < |acc| ==> acc[i] != ".."
    requires !Kept(c)
    ensures Collapse([c] + comps, absolute, acc) == Collapse(comps, absolute, acc)
  {
    assert ([c] + comps)[1..] == comps;
  }

  /** `..` after an ordinary component removes it. */
  lemma CollapseUp(comps: seq<string>, absolute: bool, acc: seq<string>)
    requires forall i :: 0 <= i < |acc| ==> Kept(acc[i])
    requires absolute ==> forall i :: 0 <= i < |acc| ==> acc[i] != ".."
    requires |acc| > 0 && acc[|acc| - 1] != ".."
    ensures Collapse([".."] + comps, absolute, acc) == Collapse(comps, absolute, acc[..|acc| - 1])
  {
    assert ([".."] + comps)[1..] == comps;
  }

  function Slashes(n: nat): (r: string)
    ensures |r| == n && forall i :: 0 <= i < n ==> r[i] == '/'
  {
    if n == 0 then "" else "/" + Slashes(n - 1)
  }

  /** `os.path.normpath(p)` for POSIX. */
  function NormPath(p: string): (r: string)
    ensures r != ""
    ensures IsAbs(p) ==> IsAbs(r)
  {
    if p == "" then "."
    else
      var initial := InitialSlashes(p);
      var comps := Collapse(Text.Split(p, '/'), initial > 0, []);
      var body := Slashes(initial) + Text.Join(comps, "/");
      if body == "" then "." else body
  }

  lemma DotIsRelative()
    ensures !IsAbs(".")
  {
    assert "."[..1] == ".";
  }

  /** The first character of a join is that of the first part. */
  lemma JoinFirst(parts: seq<string>, sep: string)
    requires |parts| > 0 && parts[0] != ""
    ensures Text.Join(parts, sep) != "" && Text.Join(parts, sep)[0] == parts[0][0]
  {
    if |parts| > 1 {
      Text.JoinCons(parts, sep);
    }
  }

  /** `normpath` keeps a path absolute or relative: it never adds or removes the root. */
  lemma NormPathKeepsRoot(p: string)
    ensures IsAbs(NormPath(p)) <==> IsAbs(p)
  {
    if p == "" {
      DotIsRelative();
    } else if !IsAbs(p) {
      var pieces := Text.Split(p, '/');
      var comps := Collapse(pieces, false, []);
      if |comps| > 0 {
        assert comps[0] in pieces;
        JoinFirst(comps, "/");
        assert Slashes(0) == "";
        assert NormPath(p)[0] == comps[0][0];
        assert comps[0][0] in comps[0];
      } else {
        assert NormPath(p) == ".";
        DotIsRelative();
      }
    }
  }

  /**
   * The components `normpath` leaves: none empty or `.`, and `..` only in a
   * run at the start of a relative path.
   */
  predicate Collapsed(s: seq<string>, absolute: bool) {
    && (forall i :: 0 <= i < |s| ==> Kept(s[i]))
    && (absolute ==> forall i :: 0 <= i < |s| ==> s[i] != "..")
    && (forall i, j :: 0 <= i < j < |s| && s[j] == ".." ==> s[i] == "..")
  }

  /** The component loop only ever produces collapsed components. */
  lemma {:induction false} CollapseCollapsed(comps: seq<string>, absolute: bool, acc: seq<string>)
    requires Collapsed(acc, absolute)
    ensures Collapsed(Collapse(comps, absolute, acc), absolute)
    decreases |comps|
  {
    if |comps| > 0 {
      var c := comps[0];
      if !Kept(c) {
        CollapseCollapsed(comps[1..], absolute, acc);
      } else if c != ".." || (!absolute && |acc| == 0) || (|acc| > 0 && acc[|acc| - 1] == "..") {
        assert Collapsed(acc + [c], absolute);
        CollapseCollapsed(comps[1..], absolute, acc + [c]);
      } else if |acc| > 0 {
        assert Collapsed(acc[..|acc| - 1], absolute);
        CollapseCollapsed(comps[1..], absolute, acc[..|acc| - 1]);
      } else {
        CollapseCollapsed(comps[1..], absolute, acc);
      }
    }
  }

  /** Components that are already collapsed pass through the loop unchanged. */
  lemma {:induction false} CollapseIdentity(comps: seq<string>, absolute: bool, acc: seq<string>)
    requires Collapsed(acc, absolute) && Collapsed(acc + comps, absolute)
    ensures Collapse(comps, absolute, acc) == acc + comps
    decreases |comps|
  {
    assert forall i :: 0 <= i < |acc| ==> acc[i] == (acc + comps)[i];
    if |comps| > 0 {
      var c := comps[0];
      assert (acc + comps)[|acc|] == c;
      assert |acc| > 0 ==> (acc + comps)[|acc| - 1] == acc[|acc| - 1];
      assert acc + [c] + comps[1..] == acc + comps;
      assert Collapsed(acc + [c], absolute) by {
        assert forall i :: 0 <= i <= |acc| ==> (acc + [c])[i] == (acc + comps)[i];
      }
      CollapseIdentity(comps[1..], absolute, acc + [c]);
    }
  }

  /** A leading slash splits off an empty first piece. */
  lemma SplitLeadingSlash(s: string)
    requires |s| > 0 && s[0] == '/'
    ensures Text.Split(s, '/') == [""] + Text.Split(s[1..], '/')
  {
    Text.SplitAt(s, '/', 0);
  }

  /** The join of separator-free components starting with a non-empty one does not start with a slash. */
  lemma JoinNoLeadingSlash(comps: seq<string>)
    requires |comps| > 0 && comps[0] != "" && '/' !in comps[0]
    ensures Text.Join(comps, "/") != "" && Text.Join(comps, "/")[0] != '/'
  {
    JoinFirst(comps, "/");
    assert comps[0][0] in comps[0];
  }

  /** Splitting and collapsing the join of collapsed components gives them back. */
  lemma CollapseSplitJoin(comps: seq<string>, absolute: bool)
    requires Collapsed(comps, absolute)
    requires forall i :: 0 <= i < |comps| ==> '/' !in comps[i]
    ensures Collapse(Text.Split(Text.Join(comps, "/"), '/'), absolute, []) == comps
  {
    var j := Text.Join(comps, "/");
    if |comps| == 0 {
      assert j == "";
      Text.SplitNone(j, '/');
      CollapseSkip("", [], absolute, []);
      assert [""] + [] == [""];
    } else {
      Text.SplitJoin(comps, '/');
      assert [] + comps == comps;
      CollapseIdentity(comps, absolute, []);
    }
  }

  /** A leading slash contributes nothing to the components. */
  lemma CollapseAfterSlash(t: string, absolute: bool)
    ensures Collapse(Text.Split("/" + t, '/'), absolute, []) == Collapse(Text.Split(t, '/'), absolute, [])
  {
    SplitLeadingSlash("/" + t);
    assert ("/" + t)[1..] == t;
    CollapseSkip("", Text.Split(t, '/'), absolute, []);
  }

  /** Leading slashes contribute nothing to the components. */
  lemma {:induction false} CollapseAfterSlashes(n: nat, j: string, absolute: bool)
    ensures Collapse(Text.Split(Slashes(n) + j, '/'), absolute, []) == Collapse(Text.Split(j, '/'), absolute, [])
    decreases n
  {
    if n > 0 {
      var t := Slashes(n - 1) + j;
      assert Slashes(n) == "/" + Slashes(n - 1);
      assert Slashes(n) + j == "/" + t;
      CollapseAfterSlash(t, absolute);
      CollapseAfterSlashes(n - 1, j, absolute);
    } else {
      assert Slashes(n) + j == j;
    }
  }

  /** Splitting a path in normal form and collapsing it again gives back its components. */
  lemma RenormComponents(initial: nat, comps: seq<string>)
    requires initial <= 2
    requires Collapsed(comps, initial > 0)
    requires forall i :: 0 <= i < |comps| ==> '/' !in comps[i]
    ensures Collapse(Text.Split(Slashes(initial) + Text.Join(comps, "/"), '/'), initial > 0, []) == comps
  {
    CollapseSplitJoin(comps, initial > 0);
    CollapseAfterSlashes(initial, Text.Join(comps, "/"), initial > 0);
  }

  /** No slash in front: a relative path. */
  lemma NoSlash(j: string)
    requires j != "" && j[0] != '/'
    ensures InitialSlashes(j) == 0
  {
    assert j[..1] != "/";
  }

  /** One slash in front of a path that does not start with one. */
  lemma OneSlash(j: string)
    requires j == "" || j[0] != '/'
    ensures InitialSlashes("/" + j) == 1
  {
    assert ("/" + j)[..1] == "/";
    if j != "" {
      assert ("/" + j)[..2] != "//";
    }
  }

  /** Two slashes in front of a path that does not start with one. */
  lemma TwoSlashes(j: string)
    requires j == "" || j[0] != '/'
    ensures InitialSlashes("//" + j) == 2
  {
    assert ("//" + j)[..1] == "/";
    assert ("//" + j)[..2] == "//";
    if j != "" {
      assert ("//" + j)[..3] != "///";
    }
  }

  /** A path in normal form keeps its leading slashes. */
  lemma RenormSlashes(initial: nat, comps: seq<string>)
    requires initial <= 2 && (initial > 0 || |comps| > 0)
    requires forall i :: 0 <= i < |comps| ==> Kept(comps[i]) && '/' !in comps[i]
    ensures InitialSlashes(Slashes(initial) + Text.Join(comps, "/")) == initial
  {
    var j := Text.Join(comps, "/");
    if |comps| > 0 {
      JoinNoLeadingSlash(comps);
    } else {
      assert j == "";
    }
    if initial == 0 {
      assert Slashes(0) + j == j;
      NoSlash(j);
    } else if initial == 1 {
      assert Slashes(1) == "/";
      OneSlash(j);
    } else {
      assert Slashes(2) == "//";
      TwoSlashes(j);
    }
  }

  /** A path in normal form is left as it is by `normpath`. */
  lemma RenormFixed(initial: nat, comps: seq<string>)
    requires initial <= 2 && (initial > 0 || |comps| > 0)
    requires Collapsed(comps, initial > 0)
    requires forall i :: 0 <= i < |comps| ==> '/' !in comps[i]
    ensures NormPath(Slashes(initial) + Text.Join(comps, "/")) == Slashes(initial) + Text.Join(comps, "/")
  {
    RenormSlashes(initial, comps);
    RenormComponents(initial, comps);
    if initial == 0 {
      JoinNoLeadingSlash(comps);
    }
  }

  lemma NormPathDot()
    ensures NormPath(".") == "."
  {
    DotIsRelative();
    Text.SplitNone(".", '/');
    CollapseSkip(".", [], false, []);
  }

  /**
   * What `normpath` returns: `.`, or the leading slashes it keeps followed by
   * collapsed components joined by single slashes.
   */
  lemma NormPathShape(p: string)
    ensures var r := NormPath(p);
            r == "." || exists comps :: Collapsed(comps, IsAbs(p)) && (forall i :: 0 <= i < |comps| ==> '/' !in comps[i])
                                        && (IsAbs(p) || |comps| > 0)
                                        && r == Slashes(InitialSlashes(p)) + Text.Join(comps, "/")
  {
    if p != "" {
      var initial := InitialSlashes(p);
      var pieces := Text.Split(p, '/');
      var comps := Collapse(pieces, initial > 0, []);
      CollapseCollapsed(pieces, initial > 0, []);
      assert forall i :: 0 <= i < |comps| ==> '/' !in comps[i] by {
        forall i | 0 <= i < |comps| ensures '/' !in comps[i] {
          assert comps[i] in pieces;
        }
      }
      if !IsAbs(p) && |comps| == 0 {
        assert Slashes(0) + Text.Join(comps, "/") == "";
      }
    }
  }

  /** `normpath` is idempotent. */
  lemma NormPathIdempotent(p: string)
    ensures NormPath(NormPath(p)) == NormPath(p)
  {
    NormPathShape(p);
    var r := NormPath(p);
    if r == "." {
      NormPathDot();
    } else {
      var comps :| Collapsed(comps, IsAbs(p)) && (forall i :: 0 <= i < |comps| ==> '/' !in comps[i])
                   && (IsAbs(p) || |comps| > 0)
                   && r == Slashes(InitialSlashes(p)) + Text.Join(comps, "/");
      RenormFixed(InitialSlashes(p), comps);
    }
  }

  /** `os.path.abspath(p)` with `os.getcwd()` given as `cwd`. */
  function AbsPath(p: string, cwd: string): (r: string)
    ensures IsAbs(p) || IsAbs(cwd) ==> IsAbs(r)
  {
    NormPath(if IsAbs(p) then p else Join(cwd, p))
  }

  /** An absolute path made absolute again, from any working directory, is unchanged. */
  lemma AbsPathIdempotent(p: string, cwd: string, cwd2: string)
    requires IsAbs(p) || IsAbs(cwd)
    ensures AbsPath(AbsPath(p, cwd), cwd2) == AbsPath(p, cwd)
  {
    NormPathIdempotent(if IsAbs(p) then p else Join(cwd, p));
  }

  /** `os.path.commonprefix([a, b])`: the longest common prefix, character by character. */
  function CommonPrefix(a: string, b: string): (r: string)
    ensures Text.StartsWith(a, r) && Text.StartsWith(b, r)
    ensures |r| < |a| && |r| < |b| ==> a[|r|] != b[|r|]
  {
    if |a| == 0 || |b| == 0 || a[0] != b[0] then ""
    else [a[0]] + CommonPrefix(a[1..], b[1..])
  }

  /** The common prefix of `a` and `b` is `a` itself exactly when `a` is a prefix of `b`. */
  lemma {:induction false} CommonPrefixIsFirst(a: string, b: string)
    ensures CommonPrefix(a, b) == a <==> Text.StartsWith(b, a)
  {
    if |a| > 0 && |b| > 0 && a[0] == b[0] {
      CommonPrefixIsFirst(a[1..], b[1..]);
      assert a == [a[0]] + a[1..];
      if |a| <= |b| {
        assert b[..|a|] == [b[0]] + b[1..][..|a| - 1];
      }
    }
  }
}
