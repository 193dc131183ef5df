/** String helpers with the semantics of the Python `str` methods they stand for. */
module Text {

  /** `s.startswith(p)` */
  predicate StartsWith(s: string, p: string) {
    |p| <= |s| && s[..|p|] == p
  }

  /** `s.endswith(p)` */
  predicate EndsWith(s: string, p: string) {
    |p| <= |s| && s[|s| - |p|..] == p
  }

  /** A suffix of a suffix is a suffix. */
  lemma EndsWithTrans(s: string, t: string, u: string)
    requires EndsWith(s, t) && EndsWith(t, u)
    ensures EndsWith(s, u)
  {
    assert s[|s| - |u|..] == s[|s| - |t|..][|t| - |u|..];
  }

  /** `sep.join(parts)` */
  function Join(parts: seq<string>, sep: string): (r: string)
    ensures |parts| == 1 ==> r == parts[0]
  {
    if |parts| == 0 then ""
    else if |parts| == 1 then parts[0]
    else parts[0] + sep + Join(parts[1..], sep)
  }

  /** Joining two or more parts puts the separator after the first. */
  lemma JoinCons(parts: seq<string>, sep: string)
    requires |parts| > 1
    ensures Join(parts, sep) == parts[0] + sep + Join(parts[1..], sep)
  {
  }

  /** `s.split(c)` for a one-character separator: never empty, pieces never contain `c`. */
  function Split(s: string, c: char): (r: seq<string>)
    ensures |r| >= 1
    ensures forall i :: 0 <= i < |r| ==> c !in r[i]
    decreases |s|
  {
    if c !in s then [s]
    else
      var i := IndexOf(s, c);
      [s[..i]] + Split(s[i + 1..], c)
  }

  /** The first occurrence of `c` is at `k` when `s[k]` is `c` and nothing before it is. */
  lemma {:induction false} IndexOfFirst(s: string, c: char, k: nat)
    requires k < |s| && s[k] == c && c !in s[..k]
    ensures c in s && IndexOf(s, c) == k
    decreases k
  {
    assert s[k] in s;
    if k > 0 {
      assert s[..k][0] == s[0];
      assert s[1..][k - 1] == s[k];
      assert s[1..][..k - 1] == s[..k][1..];
      IndexOfFirst(s[1..], c, k - 1);
    }
  }

  /** Splitting at the first separator: the piece before it, then the split of the rest. */
  lemma SplitAt(s: string, c: char, k: nat)
    requires k < |s| && s[k] == c && c !in s[..k]
    ensures Split(s, c) == [s[..k]] + Split(s[k + 1..], c)
  {
    IndexOfFirst(s, c, k);
  }

  /** Splitting a join undoes it when no part contains the separator. */
  lemma {:induction false} SplitJoin(parts: seq<string>, c: char)
    requires |parts| >= 1
    requires forall i :: 0 <= i < |parts| ==> c !in parts[i]
    ensures Split(Join(parts, [c]), c) == parts
    decreases |parts|
  {
    if |parts| == 1 {
      SplitNone(parts[0], c);
    } else {
      var s, rest := Join(parts, [c]), Join(parts[1..], [c]);
      assert Split(s, c) == [parts[0]] + Split(rest, c) by {
        JoinSeparatorAt(parts, c);
        SplitAt(s, c, |parts[0]|);
      }
      assert Split(rest, c) == parts[1..] by {
        TailWithoutSeparator(parts, c);
        SplitJoin(parts[1..], c);
      }
      assert parts == [parts[0]] + parts[1..];
    }
  }

  /** In a join of two or more parts, the first separator sits right after the first part. */
  lemma JoinSeparatorAt(parts: seq<string>, c: char)
    requires |parts| > 1 && c !in parts[0]
    ensures var s, k := Join(parts, [c]), |parts[0]|;
            k < |s| && s[..k] == parts[0] && s[k] == c && c !in s[..k] && s[k + 1..] == Join(parts[1..], [c])
  {
    var rest := Join(parts[1..], [c]);
    JoinCons(parts, [c]);
    Regroup(parts[0], [c], rest);
  }

  /** Concatenation regrouped, stated apart so the solver sees only strings. */
  lemma Regroup(a: string, b: string, c: string)
    ensures a + b + c == a + (b + c)
  {
  }

  /** The parts after the first still lack the separator. */
  lemma TailWithoutSeparator(parts: seq<string>, c: char)
    requires |parts| >= 1
    requires forall i :: 0 <= i < |parts| ==> c !in parts[i]
    ensures forall i :: 0 <= i < |parts[1..]| ==> c !in parts[1..][i]
  {
    forall i | 0 <= i < |parts[1..]| ensures c !in parts[1..][i] {
      assert parts[1..][i] == parts[i + 1];
    }
  }

  /** Without a separator, the split is the whole string. */
  lemma SplitNone(s: string, c: char)
    requires c !in s
    ensures Split(s, c) == [s]
  {
  }

  /** Index of the first occurrence of `c` in `s`. */
  function IndexOf(s: string, c: char): (i: nat)
    requires c in s
    ensures i < |s| && s[i] == c && c !in s[..i]
  {
    if s[0] == c then 0 else 1 + IndexOf(s[1..], c)
  }

  /** Index of the last occurrence of `c` in `s`. */
  function LastIndexOf(s: string, c: char): (i: nat)
    requires c in s
    ensures i < |s| && s[i] == c && c !in s[i + 1..]
  {
    if s[|s| - 1] == c then |s| - 1
    else
      assert c in s[..|s| - 1] by {
        var k :| 0 <= k < |s| && s[k] == c;
        assert s[..|s| - 1][k] == c;
      }
      LastIndexOf(s[..|s| - 1], c)
  }

  /** Decimal rendering of a natural number, as `str(n)`. */
  function NatToString(n: nat): (r: string)
    ensures |r| >= 1
    ensures forall i :: 0 <= i < |r| ==> '0' <= r[i] <= '9'
  {
    var d := ['0' + (n % 10) as char];
    if n < 10 then d else NatToString(n / 10) + d
  }

  /** `int(s)` for a string of decimal digits. */
  function DigitsValue(s: string): nat
    requires forall i :: 0 <= i < |s| ==> '0' <= s[i] <= '9'
    decreases |s|
  {
    if |s| == 0 then 0
    else 10 * DigitsValue(s[..|s| - 1]) + (s[|s| - 1] as int - '0' as int)
  }

  /** Reading back the decimal rendering gives the number: `int(str(n)) == n`. */
  lemma {:induction false} NatToStringRoundTrip(n: nat)
    ensures DigitsValue(NatToString(n)) == n
    decreases n
  {
    var s := NatToString(n);
    if n >= 10 {
      NatToStringRoundTrip(n / 10);
      assert s[..|s| - 1] == NatToString(n / 10);
    }
  }

  /** Different numbers render differently. */
  lemma NatToStringInjective(a: nat, b: nat)
    ensures NatToString(a) == NatToString(b) ==> a == b
  {
    NatToStringRoundTrip(a);
    NatToStringRoundTrip(b);
  }

  /** Decimal rendering of an integer, as `str(i)`. */
  function IntToString(i: int): string {
    if i < 0 then "-" + NatToString(-i) else NatToString(i)
  }

  /** `s.lower()` restricted to ASCII letters; other characters are kept. */
  function LowerAscii(s: string): (r: string)
    ensures |r| == |s|
    ensures forall i :: 0 <= i < |s| ==> !('A' <= r[i] <= 'Z')
  {
    if |s| == 0 then ""
    else
      var c := s[0];
      [if 'A' <= c <= 'Z' then (c as int + 32) as char else c] + LowerAscii(s[1..])
  }

  /** `a <= b` for Python strings: lexicographic by code point, a prefix first. */
  predicate Below(a: string, b: string)
    decreases |a|
  {
    |a| == 0 || (|b| > 0 && (a[0] < b[0] || (a[0] == b[0] && Below(a[1..], b[1..]))))
  }

  /** Any two strings are comparable. */
  lemma {:induction false} BelowTotal(a: string, b: string)
    ensures Below(a, b) || Below(b, a)
    decreases |a|
  {
    if |a| > 0 && |b| > 0 && a[0] == b[0] {
      BelowTotal(a[1..], b[1..]);
    }
  }

  /** Each string is at or below its successor. */
  predicate Ascending(s: seq<string>) {
    forall i :: 0 < i < |s| ==> Below(s[i - 1], s[i])
  }

  /** Inserts `x` into an ascending list before the first element it is at or below. */
  function Insert(x: string, s: seq<string>): (r: seq<string>)
    requires Ascending(s)
    ensures Ascending(r)
    ensures multiset(r) == multiset(s) + multiset{x}
    ensures |r| == |s| + 1 && (r[0] == x || (|s| > 0 && r[0] == s[0]))
  {
    if |s| == 0 then [x]
    else if Below(x, s[0]) then [x] + s
    else
      BelowTotal(x, s[0]);
      assert s == [s[0]] + s[1..];
      [s[0]] + Insert(x, s[1..])
  }

  /** `sorted(s)`: the same strings, ascending. */
  function Sort(s: seq<string>): (r: seq<string>)
    ensures Ascending(r)
    ensures multiset(r) == multiset(s)
    ensures |r| == |s|
  {
    if |s| == 0 then []
    else
      assert s == [s[0]] + s[1..];
      Insert(s[0], Sort(s[1..]))
  }
}
