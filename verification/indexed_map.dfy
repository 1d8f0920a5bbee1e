/**
 * `IndexedLinkedHashMap`: an insertion-ordered map that answers both "where is this key?" and
 * "what is stored at this position?". Entries are kept as a sequence of (key, value) pairs in
 * insertion order.
 */
module IndexedMap {
  import opened Wrappers

  predicate DistinctKeys<K(==), V>(m: seq<(K, V)>) {
    forall i, j :: 0 <= i < j < |m| ==> m[i].0 != m[j].0
  }

  function Keys<K, V>(m: seq<(K, V)>): (ks: seq<K>)
    ensures |ks| == |m| && forall i :: 0 <= i < |m| ==> ks[i] == m[i].0
  {
    seq(|m|, i requires 0 <= i < |m| => m[i].0)
  }

  /** `getIndexOfKey`: the position of the first entry with key `k`, if any. */
  function IndexOfKey<K(==), V>(m: seq<(K, V)>, k: K): (r: Option<nat>)
    ensures r.Some? ==> r.value < |m| && m[r.value].0 == k
    ensures r.Some? ==> forall j :: 0 <= j < r.value ==> m[j].0 != k
    ensures r.None? <==> forall j :: 0 <= j < |m| ==> m[j].0 != k
  {
    if |m| == 0 then None
    else if m[0].0 == k then Some(0)
    else match IndexOfKey(m[1..], k)
      case None => None
      case Some(i) => Some(i + 1)
  }

  /** `get`: the value stored under `k`, or `None` (Java's `null`) when `k` is absent. */
  function Get<K(==), V>(m: seq<(K, V)>, k: K): (r: Option<V>)
    ensures r.None? <==> k !in Keys(m)
    ensures r.Some? ==> exists i :: 0 <= i < |m| && m[i] == (k, r.value)
  {
    match IndexOfKey(m, k)
    case None => None
    case Some(i) => Some(m[i].1)
  }

  /** `getValueAtIndex`. */
  function ValueAt<K, V>(m: seq<(K, V)>, i: nat): V
    requires i < |m|
  {
    m[i].1
  }

  /**
   * `put`: a new key is appended after every existing entry; an existing key keeps its position
   * and has its value replaced, as in a `LinkedHashMap`.
   */
  function Put<K(==,!new), V>(m: seq<(K, V)>, k: K, v: V): (r: seq<(K, V)>)
    ensures k !in Keys(m) ==> r == m + [(k, v)]
    ensures k in Keys(m) ==> |r| == |m| && Keys(r) == Keys(m)
    ensures Get(r, k) == Some(v)
    ensures forall k' :: k' != k ==> Get(r, k') == Get(m, k')
    ensures DistinctKeys(m) ==> DistinctKeys(r)
  {
    match IndexOfKey(m, k)
    case None =>
      IndexOfKeyAppend(m, k, v);
      m + [(k, v)]
    case Some(i) =>
      IndexOfKeyReplace(m, i, v);
      m[i := (k, v)]
  }

  lemma IndexOfKeyAppend<K, V>(m: seq<(K, V)>, k: K, v: V)
    requires k !in Keys(m)
    ensures IndexOfKey(m + [(k, v)], k) == Some(|m|)
    ensures forall k' :: k' != k ==> IndexOfKey(m + [(k, v)], k') == IndexOfKey(m, k')
  {
    IndexOfKeyAppendNew(m, k, v);
    forall k' | k' != k
      ensures IndexOfKey(m + [(k, v)], k') == IndexOfKey(m, k')
    {
      IndexOfKeyAppendOther(m, k, v, k');
    }
  }

  /** A key appended to a map that lacks it sits at the end. */
  lemma IndexOfKeyAppendNew<K, V>(m: seq<(K, V)>, k: K, v: V)
    requires k !in Keys(m)
    ensures IndexOfKey(m + [(k, v)], k) == Some(|m|)
  {
    NotInKeys(m, k);
    AppendAbsent(m, k, v);
  }

  lemma {:induction false} AppendAbsent<K, V>(m: seq<(K, V)>, k: K, v: V)
    requires forall j :: 0 <= j < |m| ==> m[j].0 != k
    ensures IndexOfKey(m + [(k, v)], k) == Some(|m|)
  {
    var r := m + [(k, v)];
    if |m| > 0 {
      assert r[0].0 != k;
      assert r[1..] == m[1..] + [(k, v)];
      AppendAbsent(m[1..], k, v);
    }
  }

  lemma NotInKeys<K, V>(m: seq<(K, V)>, k: K)
    requires k !in Keys(m)
    ensures forall j :: 0 <= j < |m| ==> m[j].0 != k
  {
    forall j | 0 <= j < |m|
      ensures m[j].0 != k
    {
      assert Keys(m)[j] == m[j].0;
    }
  }

  /** Appending an entry for `k` does not move any other key. */
  lemma IndexOfKeyAppendOther<K, V>(m: seq<(K, V)>, k: K, v: V, k': K)
    requires k' != k
    ensures IndexOfKey(m + [(k, v)], k') == IndexOfKey(m, k')
  {
    var r := m + [(k, v)];
    assert forall j :: 0 <= j < |m| ==> r[j] == m[j];
    if IndexOfKey(m, k').Some? {
      var i := IndexOfKey(m, k').value;
      assert r[i].0 == k';
    }
  }

  lemma IndexOfKeyReplace<K, V>(m: seq<(K, V)>, i: nat, v: V)
    requires i < |m|
    ensures Keys(m[i := (m[i].0, v)]) == Keys(m)
    ensures forall k' :: IndexOfKey(m[i := (m[i].0, v)], k') == IndexOfKey(m, k')
  {
    var r := m[i := (m[i].0, v)];
    assert Keys(r) == Keys(m);
    forall k'
      ensures IndexOfKey(r, k') == IndexOfKey(m, k')
    {
      if IndexOfKey(m, k').Some? {
        var j := IndexOfKey(m, k').value;
        assert r[j].0 == k';
      } else {
        assert forall j :: 0 <= j < |r| ==> r[j].0 == m[j].0;
      }
    }
  }

  /** With distinct keys, the position of the `i`-th key is `i`. */
  lemma IndexOfDistinct<K, V>(m: seq<(K, V)>, i: nat)
    requires DistinctKeys(m) && i < |m|
    ensures IndexOfKey(m, m[i].0) == Some(i)
    ensures Get(m, m[i].0) == Some(ValueAt(m, i))
  {
  }

  /** The position of a key depends only on the keys, not on the values stored with them. */
  lemma IndexOfKeySameKeys<K, V, W>(a: seq<(K, V)>, b: seq<(K, W)>, k: K)
    requires |a| == |b| && forall i :: 0 <= i < |a| ==> a[i].0 == b[i].0
    ensures IndexOfKey(a, k) == IndexOfKey(b, k)
  {
    if IndexOfKey(a, k).Some? {
      assert b[IndexOfKey(a, k).value].0 == k;
    }
  }
}
