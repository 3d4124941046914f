/**
  Insertion-ordered maps (Java's `LinkedHashMap`) as association lists.
  `Put` on a present key overwrites its value where it stands; on a new key
  it appends, so the key order is the order of first insertion.
 */
module OrderedMaps {
  import opened Wrappers

  type Assoc<K, V> = seq<(K, V)>

  /** The keys, in iteration order. */
  function Keys<K, V>(m: Assoc<K, V>): seq<K> {
    seq(|m|, i requires 0 <= i < |m| => m[i].0)
  }

  predicate DistinctKeys<K(==), V>(m: Assoc<K, V>) {
    forall i, j :: 0 <= i < j < |m| ==> m[i].0 != m[j].0
  }

  /** Position of the entry for `k`, or `|m|` when there is none. */
  function FindIndex<K(==), V>(m: Assoc<K, V>, k: K): (i: nat)
    ensures i <= |m|
    ensures i < |m| ==> m[i].0 == k
    ensures forall j :: 0 <= j < i ==> m[j].0 != k
  {
    if |m| == 0 then 0
    else if m[0].0 == k then 0
    else 1 + FindIndex(m[1..], k)
  }

  /** The three properties of `FindIndex` pin its value down. */
  lemma FindIndexUnique<K, V>(m: Assoc<K, V>, k: K, i: nat)
    requires i <= |m|
    requires i < |m| ==> m[i].0 == k
    requires forall j :: 0 <= j < i ==> m[j].0 != k
    ensures FindIndex(m, k) == i
  {
  }

  /** `Map.get`: the value stored under `k`, if any. */
  function Get<K(==), V>(m: Assoc<K, V>, k: K): (r: Option<V>)
    ensures r.Some? <==> k in Keys(m)
    ensures r.Some? ==> exists i :: 0 <= i < |m| && m[i].0 == k && m[i].1 == r.value
  {
    var i := FindIndex(m, k);
    assert i < |m| ==> Keys(m)[i] == k;
    if i < |m| then Some(m[i].1) else None
  }

  /** `Map.put`: overwrite in place when `k` is present, append otherwise. */
  function Put<K(==,!new), V>(m: Assoc<K, V>, k: K, v: V): (r: Assoc<K, V>)
    ensures Get(r, k) == Some(v)
    ensures forall k' :: k' != k ==> Get(r, k') == Get(m, k')
    ensures k in Keys(m) ==> Keys(r) == Keys(m)
    ensures k !in Keys(m) ==> Keys(r) == Keys(m) + [k]
    ensures DistinctKeys(m) ==> DistinctKeys(r)
    ensures forall i :: 0 <= i < |r| ==> (i < |m| && r[i] == m[i]) || r[i] == (k, v)
  {
    var i := FindIndex(m, k);
    if i < |m| then
      var r := m[i := (k, v)];
      assert Keys(r) == Keys(m);
      FindIndexUnique(r, k, i);
      forall k' | k' != k ensures Get(r, k') == Get(m, k') {
        var f := FindIndex(m, k');
        FindIndexUnique(r, k', f);
      }
      r
    else
      var r := m + [(k, v)];
      assert Keys(r) == Keys(m) + [k];
      FindIndexUnique(r, k, i);
      forall k' | k' != k ensures Get(r, k') == Get(m, k') {
        var f := FindIndex(m, k');
        if f < |m| {
          FindIndexUnique(r, k', f);
        } else {
          FindIndexUnique(r, k', |r|);
        }
      }
      r
  }

  /**
    `putIfAbsent(k, new ArrayList<>())` followed by `get(k).add(x)`: append
    `x` to the list stored under `k`, creating the entry when it is missing.
   */
  function AppendTo<K(==,!new), X>(m: Assoc<K, seq<X>>, k: K, x: X): (r: Assoc<K, seq<X>>)
    ensures Get(r, k) == Some(Get(m, k).GetOr([]) + [x])
    ensures forall k' :: k' != k ==> Get(r, k') == Get(m, k')
    ensures k in Keys(m) ==> Keys(r) == Keys(m)
    ensures k !in Keys(m) ==> Keys(r) == Keys(m) + [k]
    ensures DistinctKeys(m) ==> DistinctKeys(r)
  {
    Put(m, k, Get(m, k).GetOr([]) + [x])
  }

  /** The distinct elements of `xs` in order of first occurrence. */
  function FirstOccurrences<K(==,!new)>(xs: seq<K>): (r: seq<K>)
    ensures forall x :: x in r <==> x in xs
    ensures forall i, j :: 0 <= i < j < |r| ==> r[i] != r[j]
  {
    if |xs| == 0 then []
    else
      var d := FirstOccurrences(xs[..|xs| - 1]);
      assert xs == xs[..|xs| - 1] + [xs[|xs| - 1]];
      if xs[|xs| - 1] in d then d else d + [xs[|xs| - 1]]
  }
}
