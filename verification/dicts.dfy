/** Python dictionaries: key/value pairs in insertion order, keys unique. */
module Dicts {

  type Dict<K, V> = seq<(K, V)>

  /** The keys of `d`, in insertion order. */
  function Keys<K(==), V>(d: Dict<K, V>): (r: seq<K>)
    ensures |r| == |d| && forall i :: 0 <= i < |d| ==> r[i] == d[i].0
  {
    seq(|d|, i requires 0 <= i < |d| => d[i].0)
  }

  predicate UniqueKeys<K(==), V>(d: Dict<K, V>) {
    forall i, j :: 0 <= i < j < |d| ==> d[i].0 != d[j].0
  }

  /** The keys of `d` as a set. */
  function KeySet<K(==), V>(d: Dict<K, V>): (r: set<K>)
    ensures forall i :: 0 <= i < |d| ==> d[i].0 in r
  {
    set i | 0 <= i < |d| :: d[i].0
  }

  predicate HasKey<K(==), V>(d: Dict<K, V>, k: K) {
    exists i :: 0 <= i < |d| && d[i].0 == k
  }

  /** Position of key `k`. */
  function IndexOfKey<K(==), V>(d: Dict<K, V>, k: K): (i: nat)
    requires HasKey(d, k)
    ensures i < |d| && d[i].0 == k && forall j :: 0 <= j < i ==> d[j].0 != k
  {
    if d[0].0 == k then 0
    else
      assert HasKey(d[1..], k) by {
        var i :| 0 <= i < |d| && d[i].0 == k;
        assert d[1..][i - 1] == d[i];
      }
      1 + IndexOfKey(d[1..], k)
  }

  /** `d[k]`: the value of the first entry with key `k`. */
  function Get<K(==), V>(d: Dict<K, V>, k: K): V
    requires HasKey(d, k)
  {
    d[IndexOfKey(d, k)].1
  }

  /**
   * `d[k] = v`: an existing key keeps its position and takes the new value; a
   * new key is appended at the end.
   */
  function Put<K(==), V>(d: Dict<K, V>, k: K, v: V): (r: Dict<K, V>)
    ensures HasKey(r, k) && Get(r, k) == v
    ensures KeySet(r) == KeySet(d) + {k}
    ensures HasKey(d, k) ==> (|r| == |d| && r[IndexOfKey(d, k)] == (k, v)
                              && forall i :: 0 <= i < |d| && i != IndexOfKey(d, k) ==> r[i] == d[i])
    ensures !HasKey(d, k) ==> r == d + [(k, v)]
  {
    if HasKey(d, k) then
      var i := IndexOfKey(d, k);
      var r := d[i := (k, v)];
      assert r[i].0 == k;
      assert forall j :: 0 <= j < |d| ==> r[j].0 == d[j].0;
      assert KeySet(r) == KeySet(d);
      assert IndexOfKey(r, k) == i;
      r
    else
      var r := d + [(k, v)];
      assert r[|d|].0 == k;
      assert KeySet(r) == KeySet(d) + {k} by {
        forall x | x in KeySet(r)
          ensures x in KeySet(d) + {k}
        {
          var j :| 0 <= j < |r| && r[j].0 == x;
          if j < |d| {
            assert d[j].0 == x;
          }
        }
        forall x | x in KeySet(d)
          ensures x in KeySet(r)
        {
          var j :| 0 <= j < |d| && d[j].0 == x;
          assert r[j].0 == x;
        }
      }
      assert IndexOfKey(r, k) == |d|;
      r
  }

  /** Assignment never duplicates a key. */
  lemma PutKeepsUnique<K, V>(d: Dict<K, V>, k: K, v: V)
    requires UniqueKeys(d)
    ensures UniqueKeys(Put(d, k, v))
  {
    var r := Put(d, k, v);
    if HasKey(d, k) {
      var n := IndexOfKey(d, k);
      forall i, j | 0 <= i < j < |r|
        ensures r[i].0 != r[j].0
      {
        assert r[i].0 == d[i].0 && r[j].0 == d[j].0;
      }
    } else {
      forall i, j | 0 <= i < j < |r|
        ensures r[i].0 != r[j].0
      {
        if j == |d| {
          assert d[i].0 != k;
        }
      }
    }
  }

  /** Assigning one key leaves every other key's presence and value as it was. */
  lemma PutOther<K, V>(d: Dict<K, V>, k: K, v: V, other: K)
    requires other != k
    ensures HasKey(Put(d, k, v), other) <==> HasKey(d, other)
    ensures HasKey(d, other) ==> Get(Put(d, k, v), other) == Get(d, other)
  {
    var r := Put(d, k, v);
    if HasKey(d, other) {
      var m := IndexOfKey(d, other);
      assert r[m] == d[m];
      assert IndexOfKey(r, other) == m;
    }
    if HasKey(r, other) {
      var m := IndexOfKey(r, other);
      assert m < |d| && d[m] == r[m];
    }
  }
}

