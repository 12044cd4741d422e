/** Python's insertion-ordered `dict`, as a sequence of key/value pairs.

    Assigning to a key that is already present replaces its value and keeps
    its position; assigning to a new key appends it. Iteration follows the
    sequence order. Every dictionary the engine builds has distinct keys.
 */
module OrderedMap {
  import opened Wrappers

  type Dict<K, V> = seq<(K, V)>

  function Keys<K, V>(d: Dict<K, V>): (ks: seq<K>)
    ensures |ks| == |d|
    ensures forall i :: 0 <= i < |d| ==> ks[i] == d[i].0
  {
    seq(|d|, i requires 0 <= i < |d| => d[i].0)
  }

  predicate DistinctKeys<K(==), V>(d: Dict<K, V>) {
    forall i, j :: 0 <= i < j < |d| ==> d[i].0 != d[j].0
  }

  predicate HasKey<K(==), V>(d: Dict<K, V>, k: K) {
    exists i :: 0 <= i < |d| && d[i].0 == k
  }

  /** `d[k] == v` */
  predicate Maps<K(==), V(==)>(d: Dict<K, V>, k: K, v: V) {
    exists i :: 0 <= i < |d| && d[i] == (k, v)
  }

  /** `d[k] = v` */
  function Put<K(==), V>(d: Dict<K, V>, k: K, v: V): (r: Dict<K, V>)
    ensures HasKey(d, k) ==> |r| == |d| && forall i :: 0 <= i < |d| ==> r[i] == (if d[i].0 == k then (k, v) else d[i])
    ensures !HasKey(d, k) ==> r == d + [(k, v)]
    ensures Keys(r) == Keys(d) || Keys(r) == Keys(d) + [k]
  {
    if HasKey(d, k) then
      seq(|d|, i requires 0 <= i < |d| => if d[i].0 == k then (k, v) else d[i])
    else
      d + [(k, v)]
  }

  /** After `d[k] = v`, `k` maps to `v` alone and every other key keeps its
      value. */
  lemma PutMaps<K, V>(d: Dict<K, V>, k: K, v: V)
    requires DistinctKeys(d)
    ensures DistinctKeys(Put(d, k, v))
    ensures Maps(Put(d, k, v), k, v)
    ensures forall v' :: Maps(Put(d, k, v), k, v') ==> v' == v
    ensures forall k', v' :: k' != k ==> (Maps(Put(d, k, v), k', v') <==> Maps(d, k', v'))
  {
    var r := Put(d, k, v);
    if HasKey(d, k) {
      var i :| 0 <= i < |d| && d[i].0 == k;
      assert r[i] == (k, v);
    } else {
      assert r[|d|] == (k, v);
    }
    forall k', v' | k' != k && Maps(d, k', v')
      ensures Maps(r, k', v')
    {
      var i :| 0 <= i < |d| && d[i] == (k', v');
      assert r[i] == (k', v');
    }
  }

  /** `d.get(k)`: the value of the last entry with key `k`. */
  function Get<K(==), V>(d: Dict<K, V>, k: K): (r: Option<V>)
    ensures r.None? <==> !HasKey(d, k)
    ensures r.Some? ==> Maps(d, k, r.value)
    decreases |d|
  {
    if |d| == 0 then None
    else
      var n := |d| - 1;
      if d[n].0 == k then
        assert d[n] == (k, d[n].1);
        Some(d[n].1)
      else
        var r := Get(d[..n], k);
        assert forall i :: 0 <= i < n ==> d[..n][i] == d[i];
        assert !HasKey(d[..n], k) ==> !HasKey(d, k);
        r
  }

  /** With distinct keys a key maps to one value, and `Get` finds it. */
  lemma GetMaps<K, V>(d: Dict<K, V>, k: K, v: V)
    requires DistinctKeys(d) && Maps(d, k, v)
    ensures Get(d, k) == Some(v)
  {
    var i :| 0 <= i < |d| && d[i] == (k, v);
    var j :| 0 <= j < |d| && d[j] == (k, Get(d, k).value);
  }

  /** After `d[k] = v`, `d.get(k)` is `v` and every other key reads as
      before. */
  lemma GetPut<K, V>(d: Dict<K, V>, k: K, v: V, k': K)
    requires DistinctKeys(d)
    ensures Get(Put(d, k, v), k') == if k' == k then Some(v) else Get(d, k')
  {
    PutMaps(d, k, v);
    var r := Put(d, k, v);
    if k' == k {
      GetMaps(r, k, v);
    } else if HasKey(d, k') {
      var w := Get(d, k').value;
      GetMaps(r, k', w);
    }
  }

  /** `d.update(e)`: the entries of `e` assigned in order. */
  function Update<K(==), V>(d: Dict<K, V>, e: Dict<K, V>): (r: Dict<K, V>)
    decreases |e|
  {
    if |e| == 0 then d
    else Update(Put(d, e[0].0, e[0].1), e[1..])
  }

  /** Updating keeps keys distinct, gives every key of `e` its value from
      `e`, and leaves every other key as it was. */
  lemma {:induction false} UpdateGet<K, V>(d: Dict<K, V>, e: Dict<K, V>, k: K)
    requires DistinctKeys(d) && DistinctKeys(e)
    ensures DistinctKeys(Update(d, e))
    ensures Get(Update(d, e), k) == if HasKey(e, k) then Get(e, k) else Get(d, k)
    decreases |e|
  {
    if |e| > 0 {
      var d' := Put(d, e[0].0, e[0].1);
      PutMaps(d, e[0].0, e[0].1);
      var t := e[1..];
      assert DistinctKeys(t);
      UpdateGet(d', t, k);
      GetPut(d, e[0].0, e[0].1, k);
      assert HasKey(e, k) <==> k == e[0].0 || HasKey(t, k) by {
        if HasKey(e, k) && k != e[0].0 {
          var i :| 0 <= i < |e| && e[i].0 == k;
          assert t[i - 1].0 == k;
        }
        if HasKey(t, k) {
          var i :| 0 <= i < |t| && t[i].0 == k;
          assert e[i + 1].0 == k;
        }
      }
      if HasKey(e, k) {
        var v := Get(e, k).value;
        if k == e[0].0 {
          assert Maps(e, k, e[0].1);
          GetMaps(e, k, e[0].1);
        } else {
          var w := Get(t, k).value;
          var i :| 0 <= i < |t| && t[i] == (k, w);
          assert e[i + 1] == (k, w);
          GetMaps(e, k, w);
        }
      }
    }
  }
}
