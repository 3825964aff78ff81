/** Index shifting for vertex lists when a vertex is removed from, or
    restored to, a graph whose vertices are numbered `0..n-1`. */
module ReductionUtils {

  /** The index vertex `x` has once vertex `v` is gone (`x != v`). */
  function Shift(x: nat, v: nat): (y: nat)
    ensures x <= v ==> y == x
    ensures x > v ==> y + 1 == x
  {
    if x > v then x - 1 else x
  }

  /** The index vertex `x` had before vertex `v` was put back. */
  function Unshift(x: nat, v: nat): (y: nat)
    ensures y != v
    ensures x < v ==> y == x
    ensures x >= v ==> y == x + 1
  {
    if x >= v then x + 1 else x
  }

  /** `decrease_vertices`: every entry above `v` moves down by one, the
      others stay; the list keeps its length and order. */
  function DecreaseVertices(xs: seq<nat>, v: nat): (r: seq<nat>)
    ensures |r| == |xs|
    ensures forall i :: 0 <= i < |xs| && xs[i] > v ==> r[i] + 1 == xs[i]
    ensures forall i :: 0 <= i < |xs| && xs[i] <= v ==> r[i] == xs[i]
  {
    seq(|xs|, i requires 0 <= i < |xs| => Shift(xs[i], v))
  }

  /** `increase_vertices`: every entry at or above `v` moves up by one, the
      others stay; the result never mentions `v`. */
  function IncreaseVertices(xs: seq<nat>, v: nat): (r: seq<nat>)
    ensures |r| == |xs|
    ensures forall i :: 0 <= i < |xs| && xs[i] >= v ==> r[i] == xs[i] + 1
    ensures forall i :: 0 <= i < |xs| && xs[i] < v ==> r[i] == xs[i]
    ensures v !in r
  {
    seq(|xs|, i requires 0 <= i < |xs| => Unshift(xs[i], v))
  }

  /** Removing `v` and putting it back is the identity on lists that do
      not mention `v`. */
  lemma IncreaseDecrease(xs: seq<nat>, v: nat)
    requires v !in xs
    ensures IncreaseVertices(DecreaseVertices(xs, v), v) == xs
  {
    var r := IncreaseVertices(DecreaseVertices(xs, v), v);
    forall i | 0 <= i < |xs|
      ensures r[i] == xs[i]
    {
      assert xs[i] != v;
    }
  }

  /** Putting `v` back and removing it again is always the identity. */
  lemma DecreaseIncrease(xs: seq<nat>, v: nat)
    ensures DecreaseVertices(IncreaseVertices(xs, v), v) == xs
  {
  }

  /** The lists obtained by removing `removed[0]`, then `removed[1]`, ...,
      each index taken in the graph of that moment. */
  function Reduce(xs: seq<nat>, removed: seq<nat>): (r: seq<nat>)
    ensures |r| == |xs|
    decreases |removed|
  {
    if removed == [] then xs else Reduce(DecreaseVertices(xs, removed[0]), removed[1..])
  }

  /** No removed vertex is still listed at the moment it is removed. */
  predicate Avoids(xs: seq<nat>, removed: seq<nat>)
    decreases |removed|
  {
    removed == [] ||
    (removed[0] !in xs && Avoids(DecreaseVertices(xs, removed[0]), removed[1..]))
  }

  /** The index translation `restore_independence_set` performs: the last
      removed vertex is put back first. */
  function Restore(xs: seq<nat>, removed: seq<nat>): (r: seq<nat>)
    ensures |r| == |xs|
    decreases |removed|
  {
    if removed == [] then xs else IncreaseVertices(Restore(xs, removed[1..]), removed[0])
  }

  /** `restore_independence_set`: reverses the removal list and shifts the
      set up once per removed vertex. */
  method RestoreIndependenceSet(independenceSet: seq<nat>, removedVertices: seq<nat>) returns (result: seq<nat>)
    ensures result == Restore(independenceSet, removedVertices)
    ensures |result| == |independenceSet|
  {
    result := independenceSet;
    var current := Reverse(removedVertices);
    var m := |removedVertices|;
    for index := 0 to |current|
      invariant result == Restore(independenceSet, removedVertices[m - index..])
    {
      assert removedVertices[m - index - 1..][1..] == removedVertices[m - index..];
      result := IncreaseVertices(result, current[index]);
    }
    assert removedVertices[0..] == removedVertices;
  }

  function Reverse(xs: seq<nat>): (r: seq<nat>)
    ensures |r| == |xs|
    ensures forall i :: 0 <= i < |xs| ==> r[i] == xs[|xs| - 1 - i]
  {
    seq(|xs|, i requires 0 <= i < |xs| => xs[|xs| - 1 - i])
  }

  /** Restoring undoes a sequence of removals: the independence set found
      on the reduced graph, translated back, names the original vertices. */
  lemma {:induction false} RestoreReduce(xs: seq<nat>, removed: seq<nat>)
    requires Avoids(xs, removed)
    ensures Restore(Reduce(xs, removed), removed) == xs
    decreases |removed|
  {
    if removed != [] {
      var ys := DecreaseVertices(xs, removed[0]);
      RestoreReduce(ys, removed[1..]);
      IncreaseDecrease(xs, removed[0]);
    }
  }
}
