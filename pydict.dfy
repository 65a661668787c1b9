/**
 * A Python dict as an insertion-ordered list of (key, value) entries with
 * pairwise distinct keys. `d[k] = v` overwrites the entry for k in place
 * when k is present and appends a new entry otherwise, so iteration order
 * is first-insertion order, as in Python 3.7 and later.
 */
module PyDict {
  import opened Wrappers

  type Dict<K, V> = seq<(K, V)>

  function Keys<K, V>(d: Dict<K, V>): (ks: seq<K>)
    ensures |ks| == |d|
    ensures forall i :: 0 <= i < |d| ==> ks[i] == d[i].0
  {
    if d == [] then [] else [d[0].0] + Keys(d[1..])
  }

  function Values<K, V>(d: Dict<K, V>): (vs: seq<V>)
    ensures |vs| == |d|
    ensures forall i :: 0 <= i < |d| ==> vs[i] == d[i].1
  {
    if d == [] then [] else [d[0].1] + Values(d[1..])
  }

  /** No key occurs twice. */
  predicate DistinctKeys<K(==), V>(d: Dict<K, V>) {
    forall i, j :: 0 <= i < j < |d| ==> d[i].0 != d[j].0
  }

  predicate HasKey<K(==), V>(d: Dict<K, V>, k: K) {
    exists i :: 0 <= i < |d| && d[i].0 == k
  }

  /** d.get(k): the value of the first entry with key k, or None. */
  function Get<K(==), V>(d: Dict<K, V>, k: K): (r: Option<V>)
    ensures r.None? <==> !HasKey(d, k)
    ensures r.Some? ==> exists i :: 0 <= i < |d| && d[i] == (k, r.value)
  {
    if d == [] then None
    else if d[0].0 == k then Some(d[0].1)
    else
      var r := Get(d[1..], k);
      assert r.Some? ==> exists i :: 0 <= i < |d[1..]| && d[1..][i] == (k, r.value);
      assert r.Some? ==> exists i :: 1 <= i < |d| && d[i] == (k, r.value);
      r
  }

  /** Position of key k. */
  function IndexOf<K(==), V>(d: Dict<K, V>, k: K): (i: nat)
    requires HasKey(d, k)
    ensures i < |d| && d[i].0 == k
    ensures forall j :: 0 <= j < i ==> d[j].0 != k
  {
    if d[0].0 == k then 0
    else
      assert HasKey(d[1..], k) by {
        var i :| 0 <= i < |d| && d[i].0 == k;
        assert d[1..][i - 1].0 == k;
      }
      1 + IndexOf(d[1..], k)
  }

  /** d[k] = v. */
  function Put<K(==), V>(d: Dict<K, V>, k: K, v: V): Dict<K, V> {
    if HasKey(d, k) then d[IndexOf(d, k) := (k, v)] else d + [(k, v)]
  }

  /** The entry for k, removed; the others keep their order. */
  function Remove<K(==), V>(d: Dict<K, V>, k: K): Dict<K, V> {
    if HasKey(d, k) then d[..IndexOf(d, k)] + d[IndexOf(d, k) + 1..] else d
  }

  lemma GetAt<K, V>(d: Dict<K, V>, i: nat)
    requires DistinctKeys(d) && i < |d|
    ensures Get(d, d[i].0) == Some(d[i].1)
  {
    var r := Get(d, d[i].0);
    assert HasKey(d, d[i].0);
    var j :| 0 <= j < |d| && d[j] == (d[i].0, r.value);
  }

  lemma PutKeepsDistinct<K, V>(d: Dict<K, V>, k: K, v: V)
    requires DistinctKeys(d)
    ensures DistinctKeys(Put(d, k, v))
  {
  }

  lemma PutHasKey<K, V>(d: Dict<K, V>, k: K, v: V)
    ensures HasKey(Put(d, k, v), k)
  {
    var r := Put(d, k, v);
    if HasKey(d, k) {
      assert r[IndexOf(d, k)].0 == k;
    } else {
      assert r[|d|].0 == k;
    }
  }

  /** After d[k] = v, d.get(k) is v and every other key reads as before. */
  lemma GetPut<K, V>(d: Dict<K, V>, k: K, v: V, k': K)
    requires DistinctKeys(d)
    ensures Get(Put(d, k, v), k') == if k' == k then Some(v) else Get(d, k')
  {
    var r := Put(d, k, v);
    PutKeepsDistinct(d, k, v);
    if k' == k {
      if HasKey(d, k) {
        GetAt(r, IndexOf(d, k));
      } else {
        GetAt(r, |d|);
      }
    } else if HasKey(d, k') {
      var i := IndexOf(d, k');
      GetAt(d, i);
      assert r[i] == d[i];
      GetAt(r, i);
    } else {
      forall i | 0 <= i < |r| ensures r[i].0 != k' {
        if i < |d| {
          assert r[i].0 == d[i].0;
        }
      }
    }
  }

  /** Overwriting a present key changes neither the length nor the key order. */
  lemma PutPresentKeepsKeys<K, V>(d: Dict<K, V>, k: K, v: V)
    requires HasKey(d, k)
    ensures Keys(Put(d, k, v)) == Keys(d)
  {
  }

  /** A new key goes to the end. */
  lemma PutAbsentAppendsKey<K, V>(d: Dict<K, V>, k: K, v: V)
    requires !HasKey(d, k)
    ensures Keys(Put(d, k, v)) == Keys(d) + [k]
  {
  }

  lemma RemoveKeepsDistinct<K, V>(d: Dict<K, V>, k: K)
    requires DistinctKeys(d)
    ensures DistinctKeys(Remove(d, k))
  {
    if HasKey(d, k) {
      var r := Remove(d, k);
      forall a, b | 0 <= a < b < |r| ensures r[a].0 != r[b].0 {
        RemoveAt(d, k, a);
        RemoveAt(d, k, b);
      }
    }
  }

  lemma RemoveAt<K, V>(d: Dict<K, V>, k: K, j: nat)
    requires HasKey(d, k) && j < |d| - 1
    ensures Remove(d, k)[j] == d[if j < IndexOf(d, k) then j else j + 1]
  {
    var i := IndexOf(d, k);
    var r := d[..i] + d[i + 1..];
    assert Remove(d, k) == r;
    if j < i {
      assert r[j] == d[..i][j];
    } else {
      assert r[j] == d[i + 1..][j - i];
    }
  }

  /** Removing k keeps the entry of another present key k'. */
  lemma GetRemoveOther<K, V>(d: Dict<K, V>, k: K, k': K)
    requires DistinctKeys(d) && HasKey(d, k) && HasKey(d, k') && k' != k
    ensures Get(Remove(d, k), k') == Get(d, k')
  {
    var r := Remove(d, k);
    RemoveKeepsDistinct(d, k);
    var i := IndexOf(d, k);
    var j := IndexOf(d, k');
    assert j != i;
    var j' := if j < i then j else j - 1;
    RemoveAt(d, k, j');
    assert r[j'] == d[j];
    GetAt(r, j');
    GetAt(d, j);
  }

  /** Removing k leaves no entry for a key k' that is k or was absent. */
  lemma GetRemoveAbsent<K, V>(d: Dict<K, V>, k: K, k': K)
    requires HasKey(d, k) && (k' == k || !HasKey(d, k'))
    requires DistinctKeys(d)
    ensures !HasKey(Remove(d, k), k')
  {
    var r := Remove(d, k);
    forall j | 0 <= j < |r| ensures r[j].0 != k' {
      RemoveAt(d, k, j);
    }
  }

  /** After removing k, k is absent and every other key reads as before. */
  lemma GetRemove<K, V>(d: Dict<K, V>, k: K, k': K)
    requires DistinctKeys(d)
    ensures Get(Remove(d, k), k') == if k' == k then None else Get(d, k')
  {
    if HasKey(d, k) {
      if k' != k && HasKey(d, k') {
        GetRemoveOther(d, k, k');
      } else {
        GetRemoveAbsent(d, k, k');
      }
    }
  }
}
