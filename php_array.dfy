/**
 * A PHP array with string keys, as the merger's `$devices` table uses it: an ordered list
 * of key/value entries. Assigning to an existing key keeps its position; assigning to a new
 * key appends it; `unset` drops it.
 */
module PhpArray {
  import opened Wrappers

  type Table<V> = seq<(string, V)>

  ghost predicate DistinctKeys<V>(t: Table<V>) {
    forall i, j :: 0 <= i < j < |t| ==> t[i].0 != t[j].0
  }

  /** `$t[$k]`, or None when the key is missing. */
  function Get<V>(t: Table<V>, k: string): Option<V>
    decreases |t|
  {
    if t == [] then None else if t[0].0 == k then Some(t[0].1) else Get(t[1..], k)
  }

  /** A key is found exactly when some entry carries it. */
  lemma {:induction false} GetFound<V>(t: Table<V>, k: string)
    ensures Get(t, k).Some? <==> exists i :: 0 <= i < |t| && t[i].0 == k
    decreases |t|
  {
    if t != [] {
      GetFound(t[1..], k);
      if t[0].0 != k {
        assert (exists i :: 0 <= i < |t| && t[i].0 == k) ==> exists i :: 0 <= i < |t[1..]| && t[1..][i].0 == k by {
          if exists i :: 0 <= i < |t| && t[i].0 == k {
            var i :| 0 <= i < |t| && t[i].0 == k;
            assert t[1..][i - 1].0 == k;
          }
        }
      }
    }
  }

  /** `$t[$k] = $v`. */
  function Put<V>(t: Table<V>, k: string, v: V): (r: Table<V>)
    ensures Get(r, k) == Some(v)
    ensures forall k' :: k' != k ==> Get(r, k') == Get(t, k')
    ensures Get(t, k).Some? ==> |r| == |t| && forall i :: 0 <= i < |t| ==> r[i].0 == t[i].0
    ensures Get(t, k).None? ==> r == t + [(k, v)]
    decreases |t|
  {
    if t == [] then [(k, v)]
    else if t[0].0 == k then [(k, v)] + t[1..]
    else [t[0]] + Put(t[1..], k, v)
  }

  /** Assignment never creates a second entry for a key. */
  lemma PutDistinct<V>(t: Table<V>, k: string, v: V)
    requires DistinctKeys(t)
    ensures DistinctKeys(Put(t, k, v))
  {
    if Get(t, k).None? {
      GetFound(t, k);
      AppendDistinct(t, (k, v));
    } else {
      SameKeysDistinct(t, Put(t, k, v));
    }
  }

  lemma AppendDistinct<V>(t: Table<V>, e: (string, V))
    requires DistinctKeys(t) && forall j :: 0 <= j < |t| ==> t[j].0 != e.0
    ensures DistinctKeys(t + [e])
  {
    var r := t + [e];
    assert forall j :: 0 <= j < |t| ==> r[j] == t[j];
    assert r[|t|] == e;
  }

  lemma SameKeysDistinct<V>(t: Table<V>, r: Table<V>)
    requires DistinctKeys(t) && |r| == |t| && forall j :: 0 <= j < |t| ==> r[j].0 == t[j].0
    ensures DistinctKeys(r)
  {
  }

  /** `unset($t[$k])`: every entry with key `k` dropped, the others kept in order. */
  function Remove<V>(t: Table<V>, k: string): (r: Table<V>)
    ensures Get(r, k) == None
    ensures forall k' :: k' != k ==> Get(r, k') == Get(t, k')
    ensures |r| <= |t|
    decreases |t|
  {
    if t == [] then []
    else if t[0].0 == k then Remove(t[1..], k)
    else [t[0]] + Remove(t[1..], k)
  }

  /**
   * Unsetting the key of entry `i` in a table whose keys are distinct drops that entry
   * and keeps the others in their order.
   */
  lemma RemoveAt<V>(t: Table<V>, k: string, i: nat)
    requires DistinctKeys(t) && i < |t| && t[i].0 == k
    ensures Remove(t, k) == t[..i] + t[i + 1..]
  {
    var before, after := t[..i], t[i + 1..];
    OthersLackKey(t, i, before, after);
    assert t == before + [t[i]] + after;
    RemoveBetween(before, t[i], after, k);
  }

  /** In a table with distinct keys, no entry before or after entry `i` carries its key. */
  lemma OthersLackKey<V>(t: Table<V>, i: nat, before: Table<V>, after: Table<V>)
    requires DistinctKeys(t) && i < |t| && before == t[..i] && after == t[i + 1..]
    ensures forall j :: 0 <= j < |before| ==> before[j].0 != t[i].0
    ensures forall j :: 0 <= j < |after| ==> after[j].0 != t[i].0
  {
    assert forall j :: 0 <= j < |before| ==> before[j] == t[j];
    assert forall j :: 0 <= j < |after| ==> after[j] == t[i + 1 + j];
  }

  /** Unsetting the key of the one entry `e` that carries it leaves the rest. */
  lemma RemoveBetween<V>(a: Table<V>, e: (string, V), b: Table<V>, k: string)
    requires e.0 == k
    requires forall j :: 0 <= j < |a| ==> a[j].0 != k
    requires forall j :: 0 <= j < |b| ==> b[j].0 != k
    ensures Remove(a + [e] + b, k) == a + b
  {
    var ae := a + [e];
    RemoveAppend(ae, b, k);
    RemoveAppend(a, [e], k);
    RemoveAbsent(a, k);
    RemoveAbsent(b, k);
    RemoveOnly(e, k);
    assert a + [] == a;
  }

  lemma RemoveOnly<V>(e: (string, V), k: string)
    requires e.0 == k
    ensures Remove([e], k) == []
  {
    assert [e][1..] == [];
  }

  /** `unset` acts on each part of a table separately. */
  lemma {:induction false} RemoveAppend<V>(a: Table<V>, b: Table<V>, k: string)
    ensures Remove(a + b, k) == Remove(a, k) + Remove(b, k)
    decreases |a|
  {
    if a == [] {
      assert a + b == b;
    } else {
      assert (a + b)[1..] == a[1..] + b;
      RemoveAppend(a[1..], b, k);
    }
  }

  /** Unsetting a key that no entry carries changes nothing. */
  lemma {:induction false} RemoveAbsent<V>(t: Table<V>, k: string)
    requires forall i :: 0 <= i < |t| ==> t[i].0 != k
    ensures Remove(t, k) == t
    decreases |t|
  {
    if t != [] {
      RemoveAbsent(t[1..], k);
    }
  }

  /** The values in entry order, re-indexed from 0 (what `usort` keeps of the array). */
  function Values<V>(t: Table<V>): (r: seq<V>)
    ensures |r| == |t| && forall i :: 0 <= i < |t| ==> r[i] == t[i].1
  {
    if t == [] then [] else [t[0].1] + Values(t[1..])
  }
}
