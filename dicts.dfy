/** A Python `dict` as an association list that remembers insertion order.
    The order matters here: `min(d, key=...)` walks the keys in insertion
    order, so it decides which of two equally fast modes wins. */
module Dicts {
  import opened Common

  /** Every dict in the core is keyed by text. */
  type Dict<V> = seq<(string, V)>

  /** `list(d)`: the keys in insertion order. */
  function Keys<V>(d: Dict<V>): (ks: seq<string>)
    ensures |ks| == |d|
    ensures forall i :: 0 <= i < |d| ==> ks[i] == d[i].0
  {
    seq(|d|, i requires 0 <= i < |d| => d[i].0)
  }

  /** `list(d.values())`, in the same order as the keys. */
  function Values<V>(d: Dict<V>): (vs: seq<V>)
    ensures |vs| == |d|
    ensures forall i :: 0 <= i < |d| ==> vs[i] == d[i].1
  {
    seq(|d|, i requires 0 <= i < |d| => d[i].1)
  }

  predicate DistinctKeys<V>(d: Dict<V>) {
    forall i, j :: 0 <= i < j < |d| ==> d[i].0 != d[j].0
  }

  /** `d.get(k)`: the value of the first entry with key `k`. */
  function Get<V>(d: Dict<V>, k: string): (r: Option<V>)
    ensures r.None? <==> k !in Keys(d)
    ensures r.Some? ==> exists i :: 0 <= i < |d| && d[i] == (k, r.value)
    decreases |d|
  {
    if d == [] then None
    else if d[0].0 == k then Some(d[0].1)
    else
      assert forall i :: 0 <= i < |d| - 1 ==> d[1..][i] == d[i + 1];
      Get(d[1..], k)
  }

  /** `d[k] = v`: an existing key keeps its place and takes the new value;
      a new key goes to the end. */
  function Put<V>(d: Dict<V>, k: string, v: V): (r: Dict<V>)
    ensures k !in Keys(d) ==> r == d + [(k, v)]
    ensures |r| == |d| || |r| == |d| + 1
    decreases |d|
  {
    if d == [] then [(k, v)]
    else if d[0].0 == k then [(k, v)] + d[1..]
    else
      assert k !in Keys(d) ==> k !in Keys(d[1..]);
      [d[0]] + Put(d[1..], k, v)
  }

  /** After `d[k] = v`, `d.get(k)` is `v` and every other key reads as before. */
  lemma {:induction false} PutGet<V>(d: Dict<V>, k: string, v: V, k': string)
    ensures Get(Put(d, k, v), k') == if k' == k then Some(v) else Get(d, k')
    decreases |d|
  {
    if d != [] && d[0].0 != k {
      PutGet(d[1..], k, v, k');
    }
  }

  /** Assigning an existing key leaves the key order alone. */
  lemma {:induction false} PutKeeps<V>(d: Dict<V>, k: string, v: V)
    requires k in Keys(d)
    ensures Keys(Put(d, k, v)) == Keys(d)
    decreases |d|
  {
    if d[0].0 != k {
      assert Keys(d) == [d[0].0] + Keys(d[1..]);
      PutKeeps(d[1..], k, v);
      assert Keys(Put(d, k, v)) == [d[0].0] + Keys(Put(d[1..], k, v));
    }
  }

  /** A dict never holds a key twice. */
  lemma PutDistinct<V>(d: Dict<V>, k: string, v: V)
    requires DistinctKeys(d)
    ensures DistinctKeys(Put(d, k, v))
  {
    if k in Keys(d) {
      PutKeeps(d, k, v);
      var r := Put(d, k, v);
      assert forall i :: 0 <= i < |r| ==> r[i].0 == Keys(r)[i];
    }
  }
}
