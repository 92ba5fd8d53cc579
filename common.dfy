/** Small shared vocabulary: optional values, results that carry a raised
    exception, Python's `min(..., key=...)` and the filter of a list by a
    mask, with the facts that connect the last two. */
module Common {

  datatype Option<+T> = None | Some(value: T)

  /** `Err` stands for a Python exception that escapes the function. */
  datatype Result<+T, +E> = Ok(value: T) | Err(error: E)

  /** The Python exceptions the core tells apart; `Other` is any other
      class (a connection error, a JSON decode error, ...). */
  datatype Failure = KeyError | IndexError | Other(name: string)

  /** Python's `min(xs)` over a non-empty list as an index: the scan keeps the
      current best and replaces it only by a strictly smaller value, so the
      FIRST minimal position wins. */
  function ArgMinFirst(xs: seq<int>): (k: nat)
    requires |xs| > 0
    ensures k < |xs|
    ensures forall j :: 0 <= j < |xs| ==> xs[k] <= xs[j]
    ensures forall j :: 0 <= j < k ==> xs[k] < xs[j]
    decreases |xs|
  {
    if |xs| == 1 then 0
    else
      var k' := ArgMinFirst(xs[..|xs| - 1]);
      if xs[|xs| - 1] < xs[k'] then |xs| - 1 else k'
  }

  /** The positions whose mask bit is set, in increasing order. */
  function Kept(keep: seq<bool>): (ks: seq<nat>)
    ensures |ks| <= |keep|
    ensures forall k :: 0 <= k < |ks| ==> ks[k] < |keep| && keep[ks[k]]
    ensures forall k1, k2 :: 0 <= k1 < k2 < |ks| ==> ks[k1] < ks[k2]
    ensures forall i :: 0 <= i < |keep| && keep[i] ==> i in ks
    decreases |keep|
  {
    if keep == [] then []
    else
      var n := |keep| - 1;
      Kept(keep[..n]) + (if keep[n] then [n] else [])
  }

  /** The elements of `xs` whose mask bit is set, in their original order
      (a list or dict comprehension with an `if`). */
  function FilterBy<T>(xs: seq<T>, keep: seq<bool>): seq<T>
    requires |xs| == |keep|
    decreases |xs|
  {
    if xs == [] then []
    else
      var n := |xs| - 1;
      FilterBy(xs[..n], keep[..n]) + (if keep[n] then [xs[n]] else [])
  }

  /** The filter picks exactly the elements at the kept positions. */
  lemma {:induction false} FilterByKept<T>(xs: seq<T>, keep: seq<bool>)
    requires |xs| == |keep|
    ensures |FilterBy(xs, keep)| == |Kept(keep)|
    ensures forall k :: 0 <= k < |Kept(keep)| ==> FilterBy(xs, keep)[k] == xs[Kept(keep)[k]]
    decreases |xs|
  {
    if xs != [] {
      var n := |xs| - 1;
      FilterByKept(xs[..n], keep[..n]);
      assert keep[..n] + [keep[n]] == keep;
      var ks := Kept(keep[..n]);
      forall k | 0 <= k < |ks|
        ensures ks[k] < n
      {
      }
    }
  }

  /** Taking the first minimum of the kept values chooses a kept position
      whose value is minimal over all kept positions, and every kept position
      before it has a strictly larger value: ties go to the earliest. */
  lemma FirstMinAmong(vals: seq<int>, keep: seq<bool>, xs: seq<int>)
    requires |vals| == |keep|
    requires |xs| == |Kept(keep)| > 0
    requires forall k :: 0 <= k < |xs| ==> xs[k] == vals[Kept(keep)[k]]
    ensures var i := Kept(keep)[ArgMinFirst(xs)];
            && i < |keep| && keep[i]
            && (forall j :: 0 <= j < |keep| && keep[j] ==> vals[i] <= vals[j])
            && (forall j :: 0 <= j < i && keep[j] ==> vals[i] < vals[j])
  {
    var ks := Kept(keep);
    var k := ArgMinFirst(xs);
    var i := ks[k];
    forall j | 0 <= j < |keep| && keep[j]
      ensures vals[i] <= vals[j]
      ensures j < i ==> vals[i] < vals[j]
    {
      assert j in ks;
      var k' :| 0 <= k' < |ks| && ks[k'] == j;
      assert xs[k'] == vals[j];
      if j < i {
        assert k' < k;
      }
    }
  }

  /** Filtering then taking the first minimum of the kept values picks the
      element at a kept position whose value is minimal over the kept
      positions and strictly below every kept position before it. */
  lemma FilterByFirstMin<T>(xs: seq<T>, keep: seq<bool>, vals: seq<int>, ys: seq<int>)
    requires |xs| == |keep| == |vals|
    requires |ys| == |Kept(keep)| > 0
    requires forall k :: 0 <= k < |ys| ==> ys[k] == vals[Kept(keep)[k]]
    ensures |FilterBy(xs, keep)| == |ys|
    ensures var i := Kept(keep)[ArgMinFirst(ys)];
            && i < |keep| && keep[i] && FilterBy(xs, keep)[ArgMinFirst(ys)] == xs[i]
            && (forall j :: 0 <= j < |keep| && keep[j] ==> vals[i] <= vals[j])
            && (forall j :: 0 <= j < i && keep[j] ==> vals[i] < vals[j])
  {
    FilterByKept(xs, keep);
    FirstMinAmong(vals, keep, ys);
  }

  /** The filter is empty exactly when no mask bit is set. */
  lemma {:induction false} FilterByEmpty<T>(xs: seq<T>, keep: seq<bool>)
    requires |xs| == |keep|
    ensures FilterBy(xs, keep) == [] <==> forall i :: 0 <= i < |keep| ==> !keep[i]
    decreases |xs|
  {
    if xs != [] {
      var n := |xs| - 1;
      FilterByEmpty(xs[..n], keep[..n]);
      assert forall i :: 0 <= i < n ==> keep[..n][i] == keep[i];
    }
  }
}
