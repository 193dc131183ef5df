/**
 * Order-preserving filters, the shape of Python's `[x for x in xs if keep(x)]`:
 * the elements kept appear in their original order and with their original
 * multiplicity, the others not at all.
 */
module Seqs {

  /** `a` is `b` with some elements left out and the rest in their order. */
  predicate Subsequence<T(==)>(a: seq<T>, b: seq<T>)
    decreases |b|
  {
    |a| == 0 || (|b| > 0 && ((a[0] == b[0] && Subsequence(a[1..], b[1..])) || Subsequence(a, b[1..])))
  }

  /** `r` is the filter of `s` by `keep`: a subsequence holding every kept element as often as `s` does, and nothing else. */
  ghost predicate FilterOf<T(!new)>(r: seq<T>, s: seq<T>, keep: T -> bool) {
    Subsequence(r, s) && forall x :: multiset(r)[x] == (if keep(x) then multiset(s)[x] else 0)
  }

  /** A subsequence takes no element more often than the sequence holds it. */
  lemma {:induction false} SubsequenceCounts<T>(a: seq<T>, b: seq<T>)
    requires Subsequence(a, b)
    ensures multiset(a) <= multiset(b)
    decreases |b|
  {
    if |a| > 0 {
      assert b == [b[0]] + b[1..];
      if a[0] == b[0] && Subsequence(a[1..], b[1..]) {
        SubsequenceCounts(a[1..], b[1..]);
        assert a == [a[0]] + a[1..];
      } else {
        SubsequenceCounts(a, b[1..]);
      }
    }
  }

  /** Dropping the head of the filtered sequence: the filter of the tail, or its head and the filter of the tail. */
  lemma FilterTail<T(!new)>(r: seq<T>, s: seq<T>, keep: T -> bool)
    requires |s| > 0 && FilterOf(r, s, keep)
    ensures keep(s[0]) ==> |r| > 0 && r[0] == s[0] && FilterOf(r[1..], s[1..], keep)
    ensures !keep(s[0]) ==> FilterOf(r, s[1..], keep)
  {
    var x := s[0];
    assert s == [x] + s[1..];
    if keep(x) {
      assert multiset(r)[x] == multiset(s)[x] > multiset(s[1..])[x];
      if !(|r| > 0 && r[0] == x && Subsequence(r[1..], s[1..])) {
        SubsequenceCounts(r, s[1..]);
        assert false;
      }
      assert r == [x] + r[1..];
    } else {
      assert multiset(r)[x] == 0;
      if |r| > 0 {
        assert r[0] in multiset(r);
      }
    }
  }

  /** The filter is determined: two sequences that both filter `s` by `keep` are equal. */
  lemma {:induction false} FilterUnique<T(!new)>(r1: seq<T>, r2: seq<T>, s: seq<T>, keep: T -> bool)
    requires FilterOf(r1, s, keep) && FilterOf(r2, s, keep)
    ensures r1 == r2
    decreases |s|
  {
    if |s| == 0 {
      assert |r1| == 0 && |r2| == 0;
    } else {
      FilterTail(r1, s, keep);
      FilterTail(r2, s, keep);
      if keep(s[0]) {
        FilterUnique(r1[1..], r2[1..], s[1..], keep);
        assert r1 == [r1[0]] + r1[1..];
        assert r2 == [r2[0]] + r2[1..];
      } else {
        FilterUnique(r1, r2, s[1..], keep);
      }
    }
  }

  /** Filtering a sequence that starts with a kept element. */
  lemma FilterConsKept<T(!new)>(x: T, rest: seq<T>, s: seq<T>, keep: T -> bool)
    requires |s| > 0 && s[0] == x && keep(x) && FilterOf(rest, s[1..], keep)
    ensures FilterOf([x] + rest, s, keep)
  {
    assert s == [x] + s[1..];
    assert ([x] + rest)[1..] == rest;
  }

  /** Filtering a sequence that starts with a dropped element. */
  lemma FilterConsDropped<T(!new)>(rest: seq<T>, s: seq<T>, keep: T -> bool)
    requires |s| > 0 && !keep(s[0]) && FilterOf(rest, s[1..], keep)
    ensures FilterOf(rest, s, keep)
  {
    assert s == [s[0]] + s[1..];
  }

  /** Concatenation regrouped, stated apart so the solver sees only the three sequences. */
  lemma Regroup<T>(a: seq<T>, b: seq<T>, c: seq<T>)
    ensures a + b + c == a + (b + c)
  {
  }
}
