/** Deleting a vertex from the DCEL builder: every arc at the vertex is
    dropped, the vertex is dropped, and all arc and vertex indices are
    renumbered with `decrease_index`. */
module BuilderRemoval {
  import opened Wrappers
  import opened SetSeqs
  import opened DcelBuilders
  import ReductionUtils

  // ---------------------------------------------------------------------
  // Index arithmetic

  /** How many entries of `removed` lie below `index`. */
  function CountBelow(removed: seq<nat>, index: nat): (c: nat)
    ensures c <= |removed|
    ensures c == 0 <==> forall k :: 0 <= k < |removed| ==> removed[k] >= index
    ensures c == |removed| <==> forall k :: 0 <= k < |removed| ==> removed[k] < index
  {
    if removed == [] then 0
    else (if removed[0] < index then 1 else 0) + CountBelow(removed[1..], index)
  }

  /** `decrease_index`: the index an element keeps once the elements at
      the positions `removed` are gone. The subtraction must not underflow,
      which holds whenever `removed` has no repetitions
      (`CountBelowBound`). */
  function DecreaseIndex(index: nat, removed: seq<nat>): (r: nat)
    requires CountBelow(removed, index) <= index
    ensures r <= index
    ensures r == index <==> forall k :: 0 <= k < |removed| ==> removed[k] >= index
  {
    index - CountBelow(removed, index)
  }

  /** The number of elements of `s` below `i`. */
  function Rank(s: set<nat>, i: nat): nat
  {
    |set x | x in s && x < i|
  }

  lemma RankStep(s: set<nat>, n: nat)
    ensures Rank(s, n + 1) == Rank(s, n) + (if n in s then 1 else 0)
  {
    var a := set x | x in s && x < n;
    var b := set x | x in s && x < n + 1;
    if n in s {
      assert b == a + {n};
    } else {
      assert b == a;
    }
  }

  lemma RankZero(s: set<nat>, d: nat)
    requires forall x :: x in s ==> x > d
    ensures Rank(s, d) == 0
  {
    assert (set x | x in s && x < d) == {};
  }

  lemma RankAdd(s: set<nat>, y: nat, i: nat)
    requires y !in s
    ensures Rank(s + {y}, i) == Rank(s, i) + (if y < i then 1 else 0)
  {
    var a := set x | x in s && x < i;
    var b := set x | x in s + {y} && x < i;
    if y < i {
      assert b == a + {y};
    } else {
      assert b == a;
    }
  }

  /** Counting a list without repetitions is ranking its set. */
  lemma {:induction false} CountRank(removed: seq<nat>, index: nat)
    requires Distinct(removed)
    ensures CountBelow(removed, index) == Rank(Set(removed), index)
  {
    if removed != [] {
      var rest := removed[1..];
      assert Distinct(rest) by {
        forall i, j | 0 <= i < j < |rest|
          ensures rest[i] != rest[j]
        {
          assert rest[i] == removed[i + 1] && rest[j] == removed[j + 1];
        }
      }
      CountRank(rest, index);
      var y := removed[0];
      assert y !in rest by {
        forall j | 0 <= j < |rest|
          ensures rest[j] != y
        {
          assert rest[j] == removed[j + 1];
        }
      }
      assert Set(removed) == Set(rest) + {y};
      RankAdd(Set(rest), y, index);
    }
  }

  // ---------------------------------------------------------------------
  // Dropping the elements at a set of positions

  /** The elements of `xs` at positions outside `s`, in order. */
  function KeepIndices<T>(xs: seq<T>, s: set<nat>): (r: seq<T>)
    ensures |r| <= |xs|
  {
    if xs == [] then []
    else KeepIndices(xs[..|xs| - 1], s) + (if |xs| - 1 in s then [] else [xs[|xs| - 1]])
  }

  /** One element is dropped per removed position. */
  lemma {:induction false} KeepLen<T>(xs: seq<T>, s: set<nat>)
    ensures |KeepIndices(xs, s)| + Rank(s, |xs|) == |xs|
  {
    if xs != [] {
      KeepLen(xs[..|xs| - 1], s);
      RankStep(s, |xs| - 1);
    } else {
      assert (set x | x in s && x < 0) == {};
    }
  }

  /** A kept element moves down by the number of removed positions below
      it. */
  lemma {:induction false} KeepAt<T>(xs: seq<T>, s: set<nat>, i: nat)
    requires i < |xs| && i !in s
    ensures Rank(s, i) <= i
    ensures i - Rank(s, i) < |KeepIndices(xs, s)|
    ensures KeepIndices(xs, s)[i - Rank(s, i)] == xs[i]
  {
    var n := |xs|;
    var init := xs[..n - 1];
    if i == n - 1 {
      KeepLen(init, s);
    } else {
      KeepAt(init, s, i);
    }
  }

  /** Positions at or beyond the end remove nothing. */
  lemma {:induction false} KeepAll<T>(xs: seq<T>, s: set<nat>)
    requires forall x :: x in s ==> x >= |xs|
    ensures KeepIndices(xs, s) == xs
  {
    if xs != [] {
      KeepAll(xs[..|xs| - 1], s);
    }
  }

  /** `Vec::remove(d)` on the kept elements, when every position removed
      so far lies above `d`, adds `d` to the removed positions. */
  lemma {:induction false} RemoveAtKeep<T>(xs: seq<T>, s: set<nat>, d: nat)
    requires d < |xs| && forall x :: x in s ==> x > d
    ensures d < |KeepIndices(xs, s)|
    ensures var k := KeepIndices(xs, s); k[..d] + k[d + 1..] == KeepIndices(xs, s + {d})
  {
    var n := |xs|;
    var init := xs[..n - 1];
    RankZero(s, d);
    KeepAt(xs, s, d);
    if d == n - 1 {
      RemoveLastKeep(xs, s);
    } else {
      RemoveAtKeep(init, s, d);
      KeepUnfold(xs, s, d);
    }
  }

  /** The last step of `KeepIndices` with and without `d` removed. */
  lemma KeepUnfold<T>(xs: seq<T>, s: set<nat>, d: nat)
    requires d < |xs| - 1 && forall x :: x in s ==> x > d
    requires var a := KeepIndices(xs[..|xs| - 1], s);
             d < |a| && a[..d] + a[d + 1..] == KeepIndices(xs[..|xs| - 1], s + {d})
    ensures var k := KeepIndices(xs, s); d < |k| && k[..d] + k[d + 1..] == KeepIndices(xs, s + {d})
  {
    var n := |xs|;
    var a := KeepIndices(xs[..n - 1], s);
    var tail: seq<T> := if n - 1 in s then [] else [xs[n - 1]];
    assert KeepIndices(xs, s) == a + tail;
    assert KeepIndices(xs, s + {d}) == KeepIndices(xs[..n - 1], s + {d}) + tail;
    if n - 1 !in s {
      RemoveAtAppend(a, xs[n - 1], d);
    }
  }

  lemma RemoveAtAppend<T>(a: seq<T>, x: T, d: nat)
    requires d < |a|
    ensures (a + [x])[..d] + (a + [x])[d + 1..] == (a[..d] + a[d + 1..]) + [x]
  {
  }

  lemma RemoveLastKeep<T>(xs: seq<T>, s: set<nat>)
    requires xs != [] && forall x :: x in s ==> x >= |xs|
    ensures var k := KeepIndices(xs, s); var d := |xs| - 1;
            d < |k| && k[..d] + k[d + 1..] == KeepIndices(xs, s + {d})
  {
    var init := xs[..|xs| - 1];
    KeepAll(init, s);
    KeepAll(init, s + {|xs| - 1});
  }

  /** Distinct kept positions get distinct new indices. */
  lemma {:induction false} RankGrowth(s: set<nat>, i: nat, j: nat)
    requires i <= j
    ensures Rank(s, j) <= Rank(s, i) + (j - i)
    decreases j - i
  {
    if i < j {
      RankGrowth(s, i, j - 1);
      RankStep(s, j - 1);
    }
  }

  lemma RankInjective(s: set<nat>, i: nat, j: nat)
    requires i !in s && j !in s && i < j
    requires Rank(s, i) <= i && Rank(s, j) <= j
    ensures i - Rank(s, i) < j - Rank(s, j)
  {
    RankStep(s, i);
    RankGrowth(s, i + 1, j);
  }

  /** Counting never exceeds the index when `removed` has no repetitions,
      so `decrease_index` does not underflow. */
  lemma CountBelowBound(removed: seq<nat>)
    requires Distinct(removed)
    ensures forall i :: CountBelow(removed, i) <= i
  {
    forall i: nat
      ensures CountBelow(removed, i) <= i
    {
      CountRank(removed, i);
      RankGrowth(Set(removed), 0, i);
      assert (set x | x in Set(removed) && x < 0) == {};
    }
  }

  /** `decrease_index(i, &vec![u])` is the shift past one removed vertex. */
  lemma DecreaseSingle(x: nat, u: nat)
    ensures CountBelow([u], x) <= x
    ensures DecreaseIndex(x, [u]) == ReductionUtils.Shift(x, u)
  {
    assert [u][1..] == [];
  }

  /** Renumbering by `decrease_index` sends a kept position to the place
      its element has among the kept elements. */
  lemma DecreaseKeeps<T>(xs: seq<T>, removed: seq<nat>, x: nat)
    requires Distinct(removed) && x < |xs| && x !in removed
    ensures CountBelow(removed, x) <= x
    ensures DecreaseIndex(x, removed) < |KeepIndices(xs, Set(removed))|
    ensures KeepIndices(xs, Set(removed))[DecreaseIndex(x, removed)] == xs[x]
  {
    CountRank(removed, x);
    KeepAt(xs, Set(removed), x);
  }

  /** `decrease_index` is injective on the positions that are kept. */
  lemma DecreaseInjective(removed: seq<nat>, x: nat, y: nat)
    requires Distinct(removed) && x !in removed && y !in removed && x != y
    ensures CountBelow(removed, x) <= x && CountBelow(removed, y) <= y
    ensures DecreaseIndex(x, removed) != DecreaseIndex(y, removed)
  {
    CountBelowBound(removed);
    CountRank(removed, x);
    CountRank(removed, y);
    if x < y {
      RankInjective(Set(removed), x, y);
    } else {
      RankInjective(Set(removed), y, x);
    }
  }

  // ---------------------------------------------------------------------
  // The arcs to remove

  predicate IncidentTo(a: BArc, u: nat) {
    a.src == u || a.dst == u
  }

  /** The indices of the arcs at `u`, ascending, as the enumerate-filter
      collects them. */
  function IncidentArcs(arcs: seq<BArc>, u: nat): (r: seq<nat>)
    ensures forall i: nat :: i in r <==> i < |arcs| && IncidentTo(arcs[i], u)
    ensures forall i, j :: 0 <= i < j < |r| ==> r[i] < r[j]
  {
    if arcs == [] then []
    else
      var n := |arcs| - 1;
      var init := IncidentArcs(arcs[..n], u);
      assert forall k :: 0 <= k < |init| ==> init[k] < n by {
        forall k | 0 <= k < |init|
          ensures init[k] < n
        {
          assert init[k] in init;
        }
      }
      assert forall i: nat :: i < n ==> arcs[..n][i] == arcs[i];
      init + (if IncidentTo(arcs[n], u) then [n] else [])
  }

  /** `arcs_to_be_removed` after `sort` and `reverse`: descending. */
  function Removed(arcs: seq<BArc>, u: nat): (r: seq<nat>)
    ensures forall i: nat :: i in r <==> i < |arcs| && IncidentTo(arcs[i], u)
    ensures forall i, j :: 0 <= i < j < |r| ==> r[i] > r[j]
    ensures Distinct(r)
  {
    var asc := IncidentArcs(arcs, u);
    var r := ReductionUtils.Reverse(asc);
    assert forall i: nat :: i in r <==> i in asc by {
      forall i | i in r
        ensures i in asc
      {
        var k :| 0 <= k < |r| && r[k] == i;
        assert asc[|asc| - 1 - k] == i;
      }
      forall i | i in asc
        ensures i in r
      {
        var k :| 0 <= k < |asc| && asc[k] == i;
        assert r[|asc| - 1 - k] == i;
      }
    }
    r
  }

  /** `retain(|arc| !arcs_to_be_removed.contains(arc))`. */
  function Retain(xs: seq<nat>, removed: seq<nat>): (r: seq<nat>)
    ensures forall x :: x in r <==> x in xs && x !in removed
    ensures Distinct(xs) ==> Distinct(r)
  {
    if xs == [] then []
    else
      var rest := Retain(xs[1..], removed);
      assert Distinct(xs) ==> Distinct(xs[1..]) && xs[0] !in xs[1..] by {
        if Distinct(xs) {
          forall i, j | 0 <= i < j < |xs[1..]|
            ensures xs[1..][i] != xs[1..][j]
          {
            assert xs[1..][i] == xs[i + 1] && xs[1..][j] == xs[j + 1];
          }
          forall j | 0 <= j < |xs[1..]|
            ensures xs[1..][j] != xs[0]
          {
            assert xs[1..][j] == xs[j + 1];
          }
        }
      }
      var r := (if xs[0] in removed then [] else [xs[0]]) + rest;
      assert Distinct(xs) ==> Distinct(r) by {
        if Distinct(xs) && xs[0] !in removed {
          forall i, j | 0 <= i < j < |r|
            ensures r[i] != r[j]
          {
            assert r[j] == rest[j - 1];
            if i > 0 {
              assert r[i] == rest[i - 1];
            }
          }
        }
      }
      r
  }

  /** The arc lists renumbered with `decrease_index`. */
  function DecreaseAll(xs: seq<nat>, removed: seq<nat>): (r: seq<nat>)
    requires Distinct(removed)
    ensures |r| == |xs|
    ensures forall k :: 0 <= k < |xs| ==> CountBelow(removed, xs[k]) <= xs[k] && r[k] == DecreaseIndex(xs[k], removed)
  {
    CountBelowBound(removed);
    seq(|xs|, k requires 0 <= k < |xs| => DecreaseIndex(xs[k], removed))
  }

  /** The update an arc listed at position `port` receives. */
  function Relabel(a: BArc, port: nat, removed: seq<nat>, u: nat): (r: BArc)
    requires Distinct(removed)
    ensures r.dstPort == a.dstPort && r.next == a.next && r.prev == a.prev && r.face == a.face
    ensures r.src == ReductionUtils.Shift(a.src, u) && r.dst == ReductionUtils.Shift(a.dst, u)
    ensures r.srcPort == Some(port)
    ensures a.twin.None? <==> r.twin.None?
  {
    CountBelowBound(removed);
    DecreaseSingle(a.src, u);
    DecreaseSingle(a.dst, u);
    a.(src := DecreaseIndex(a.src, [u]), dst := DecreaseIndex(a.dst, [u]), srcPort := Some(port),
       twin := match a.twin
               case Some(t) => Some(DecreaseIndex(t, removed))
               case None => None)
  }

  // ---------------------------------------------------------------------
  // The vertex lists

  /** Every listed arc index is an index of an arc. */
  ghost predicate EntriesInRange(b: Builder) {
    forall w, x :: 0 <= w < |b.vertices| && x in b.vertices[w].arcs ==> x < |b.arcs|
  }

  /** No arc index is listed twice, at one vertex or at two. */
  ghost predicate UniqueLists(vs: seq<BVertex>) {
    (forall w, k1, k2 :: 0 <= w < |vs| && 0 <= k1 < k2 < |vs[w].arcs| ==> vs[w].arcs[k1] != vs[w].arcs[k2]) &&
    (forall w1, w2, k1, k2 ::
       0 <= w1 < |vs| && 0 <= w2 < |vs| && w1 != w2 && 0 <= k1 < |vs[w1].arcs| && 0 <= k2 < |vs[w2].arcs| ==>
       vs[w1].arcs[k1] != vs[w2].arcs[k2])
  }

  /** `self.vertices.remove(u)`. */
  function RemoveAt(vs: seq<BVertex>, u: nat): (r: seq<BVertex>)
    requires u < |vs|
    ensures |r| + 1 == |vs|
    ensures forall w :: 0 <= w < |r| ==> r[w] == vs[ReductionUtils.Unshift(w, u)]
  {
    vs[..u] + vs[u + 1..]
  }

  /** The retain pass over every vertex. */
  function RetainAll(vs: seq<BVertex>, removed: seq<nat>): (r: seq<BVertex>)
    ensures |r| == |vs|
    ensures forall w, x :: 0 <= w < |vs| ==> (x in r[w].arcs <==> x in vs[w].arcs && x !in removed)
  {
    seq(|vs|, w requires 0 <= w < |vs| => BVertex(Retain(vs[w].arcs, removed)))
  }

  /** The renumbering pass over every vertex. */
  function DecreaseLists(vs: seq<BVertex>, removed: seq<nat>): (r: seq<BVertex>)
    requires Distinct(removed)
    ensures |r| == |vs|
    ensures forall w :: 0 <= w < |vs| ==> |r[w].arcs| == |vs[w].arcs|
    ensures forall w, k :: 0 <= w < |vs| && 0 <= k < |vs[w].arcs| ==>
              CountBelow(removed, vs[w].arcs[k]) <= vs[w].arcs[k] &&
              r[w].arcs[k] == DecreaseIndex(vs[w].arcs[k], removed)
  {
    seq(|vs|, w requires 0 <= w < |vs| => BVertex(DecreaseAll(vs[w].arcs, removed)))
  }

  /** The lists once all three passes are done. */
  function Lists(b: Builder, u: nat, removed: seq<nat>): (r: seq<BVertex>)
    requires u < |b.vertices| && Distinct(removed)
    ensures |r| + 1 == |b.vertices|
  {
    DecreaseLists(RetainAll(RemoveAt(b.vertices, u), removed), removed)
  }

  /** A listed arc of the new builder comes from a surviving arc listed at
      the same vertex before the renumbering. */
  lemma ListsOrigin(b: Builder, u: nat, removed: seq<nat>, w: nat, k: nat)
    requires u < |b.vertices| && Distinct(removed)
    requires w < |Lists(b, u, removed)| && k < |Lists(b, u, removed)[w].arcs|
    ensures var x := RetainAll(RemoveAt(b.vertices, u), removed)[w].arcs[k];
            x in b.vertices[ReductionUtils.Unshift(w, u)].arcs && x !in removed &&
            CountBelow(removed, x) <= x && Lists(b, u, removed)[w].arcs[k] == DecreaseIndex(x, removed)
  {
    var vs := RetainAll(RemoveAt(b.vertices, u), removed);
    assert vs[w].arcs[k] in vs[w].arcs;
  }

  /** Lists in which no arc appears twice keep that property through the
      three passes, provided the removed arcs are gone from them. */
  lemma ListedUnique(b: Builder)
    requires Listed(b)
    ensures UniqueLists(b.vertices)
  {
  }

  lemma RemoveAtUnique(vs: seq<BVertex>, u: nat)
    requires u < |vs| && UniqueLists(vs)
    ensures UniqueLists(RemoveAt(vs, u))
  {
  }

  lemma RetainAllUnique(vs: seq<BVertex>, removed: seq<nat>)
    requires UniqueLists(vs)
    ensures UniqueLists(RetainAll(vs, removed))
  {
    var r := RetainAll(vs, removed);
    forall w | 0 <= w < |vs|
      ensures Distinct(r[w].arcs)
    {
      assert Distinct(vs[w].arcs);
    }
    forall w1, w2, k1, k2 | 0 <= w1 < |r| && 0 <= w2 < |r| && w1 != w2 &&
        0 <= k1 < |r[w1].arcs| && 0 <= k2 < |r[w2].arcs|
      ensures r[w1].arcs[k1] != r[w2].arcs[k2]
    {
      assert r[w1].arcs[k1] in r[w1].arcs && r[w2].arcs[k2] in r[w2].arcs;
    }
  }

  lemma DecreaseListsUnique(vs: seq<BVertex>, removed: seq<nat>)
    requires UniqueLists(vs) && Distinct(removed)
    requires forall w, x :: 0 <= w < |vs| && x in vs[w].arcs ==> x !in removed
    ensures UniqueLists(DecreaseLists(vs, removed))
  {
    var r := DecreaseLists(vs, removed);
    forall w, k1, k2 | 0 <= w < |r| && 0 <= k1 < k2 < |r[w].arcs|
      ensures r[w].arcs[k1] != r[w].arcs[k2]
    {
      var x, y := vs[w].arcs[k1], vs[w].arcs[k2];
      assert x in vs[w].arcs && y in vs[w].arcs;
      DecreaseInjective(removed, x, y);
    }
    forall w1, w2, k1, k2 | 0 <= w1 < |r| && 0 <= w2 < |r| && w1 != w2 &&
        0 <= k1 < |r[w1].arcs| && 0 <= k2 < |r[w2].arcs|
      ensures r[w1].arcs[k1] != r[w2].arcs[k2]
    {
      var x, y := vs[w1].arcs[k1], vs[w2].arcs[k2];
      assert x in vs[w1].arcs && y in vs[w2].arcs;
      DecreaseInjective(removed, x, y);
    }
  }

  /** In a well-formed builder the new lists repeat no arc. */
  lemma ListsUnique(b: Builder, u: nat, removed: seq<nat>)
    requires Wf(b) && u < |b.vertices| && Distinct(removed)
    ensures UniqueLists(Lists(b, u, removed))
  {
    ListedUnique(b);
    RemoveAtUnique(b.vertices, u);
    RetainAllUnique(RemoveAt(b.vertices, u), removed);
    DecreaseListsUnique(RetainAll(RemoveAt(b.vertices, u), removed), removed);
  }

  // ---------------------------------------------------------------------
  // The update pass

  ghost predicate InRange(vs: seq<BVertex>, n: nat) {
    forall w, k :: 0 <= w < |vs| && 0 <= k < |vs[w].arcs| ==> vs[w].arcs[k] < n
  }

  /** The update pass touches only the source, destination, source port
      and twin of an arc. */
  ghost predicate Untouched(base: seq<BArc>, arcs: seq<BArc>) {
    |arcs| == |base| &&
    forall p :: 0 <= p < |base| ==>
      arcs[p].dstPort == base[p].dstPort && arcs[p].next == base[p].next &&
      arcs[p].prev == base[p].prev && arcs[p].face == base[p].face
  }

  /** Position `(w', k')` of the lists comes before position `(w, k)`. */
  ghost predicate Before(vs: seq<BVertex>, w: nat, k: nat, w': int, k': int) {
    0 <= w' < |vs| && 0 <= k' < |vs[w'].arcs| && (w' < w || (w' == w && k' < k))
  }

  /** Arc `p` is listed at no position before `(w, k)`. */
  ghost predicate Pending(vs: seq<BVertex>, w: nat, k: nat, p: nat) {
    (forall w' :: 0 <= w' < w && w' < |vs| ==> p !in vs[w'].arcs) &&
    (w < |vs| && k <= |vs[w].arcs| ==> p !in vs[w].arcs[..k])
  }

  /** The state of the update pass before position `(w, k)`: every arc
      listed earlier has its update, every other arc is as it was. */
  ghost predicate Done(vs: seq<BVertex>, base: seq<BArc>, arcs: seq<BArc>, w: nat, k: nat, removed: seq<nat>, u: nat)
    requires Distinct(removed) && InRange(vs, |base|) && |arcs| == |base|
  {
    (forall w', k' {:trigger vs[w'].arcs[k']} :: Before(vs, w, k, w', k') ==>
       arcs[vs[w'].arcs[k']] == Relabel(base[vs[w'].arcs[k']], k', removed, u)) &&
    (forall p :: 0 <= p < |base| && Pending(vs, w, k, p) ==> arcs[p] == base[p])
  }

  lemma DoneStart(vs: seq<BVertex>, base: seq<BArc>, removed: seq<nat>, u: nat)
    requires Distinct(removed) && InRange(vs, |base|)
    ensures Done(vs, base, base, 0, 0, removed, u)
  {
  }

  /** One update at position `(w, k)`. */
  lemma {:induction false} DoneStep(vs: seq<BVertex>, base: seq<BArc>, arcs: seq<BArc>, w: nat, k: nat, removed: seq<nat>, u: nat)
    requires Distinct(removed) && InRange(vs, |base|) && |arcs| == |base| && UniqueLists(vs)
    requires w < |vs| && k < |vs[w].arcs|
    requires Done(vs, base, arcs, w, k, removed, u)
    ensures var e := vs[w].arcs[k];
            arcs[e] == base[e] &&
            Done(vs, base, arcs[e := Relabel(arcs[e], k, removed, u)], w, k + 1, removed, u)
  {
    var e := vs[w].arcs[k];
    assert Pending(vs, w, k, e) by {
      forall w' | 0 <= w' < w
        ensures e !in vs[w'].arcs
      {
        forall k' | 0 <= k' < |vs[w'].arcs|
          ensures vs[w'].arcs[k'] != e
        {
        }
      }
      forall k' | 0 <= k' < k
        ensures vs[w].arcs[..k][k'] != e
      {
        assert vs[w].arcs[..k][k'] == vs[w].arcs[k'];
      }
    }
    var arcs' := arcs[e := Relabel(arcs[e], k, removed, u)];
    forall p | 0 <= p < |base| && Pending(vs, w, k + 1, p)
      ensures arcs'[p] == base[p]
    {
      assert vs[w].arcs[..k + 1] == vs[w].arcs[..k] + [e];
    }
  }

  /** Moving on to the next vertex. */
  lemma DoneNext(vs: seq<BVertex>, base: seq<BArc>, arcs: seq<BArc>, w: nat, removed: seq<nat>, u: nat)
    requires Distinct(removed) && InRange(vs, |base|) && |arcs| == |base|
    requires w < |vs| && Done(vs, base, arcs, w, |vs[w].arcs|, removed, u)
    ensures Done(vs, base, arcs, w + 1, 0, removed, u)
  {
    forall p | 0 <= p < |base| && Pending(vs, w + 1, 0, p)
      ensures Pending(vs, w, |vs[w].arcs|, p)
    {
      assert vs[w].arcs[..|vs[w].arcs|] == vs[w].arcs;
    }
  }

  // ---------------------------------------------------------------------
  // The whole removal

  /** The index a surviving arc `a` has after the removal. */
  function NewIndex(arcs: seq<BArc>, u: nat, a: nat): (p: nat)
    ensures p <= a
  {
    CountBelowBound(Removed(arcs, u));
    DecreaseIndex(a, Removed(arcs, u))
  }

  /** The fields the removal leaves alone. */
  ghost predicate Moved(b: Builder, u: nat, r: Builder, a: nat)
    requires a < |b.arcs|
  {
    var p := NewIndex(b.arcs, u, a);
    p < |r.arcs| &&
    r.arcs[p].dstPort == b.arcs[a].dstPort && r.arcs[p].next == b.arcs[a].next &&
    r.arcs[p].prev == b.arcs[a].prev && r.arcs[p].face == b.arcs[a].face
  }

  /** The fields the removal renumbers. */
  ghost predicate Renumbered(b: Builder, u: nat, r: Builder, a: nat)
    requires a < |b.arcs|
  {
    var p := NewIndex(b.arcs, u, a);
    p < |r.arcs| &&
    r.arcs[p].src == ReductionUtils.Shift(b.arcs[a].src, u) &&
    r.arcs[p].dst == ReductionUtils.Shift(b.arcs[a].dst, u) &&
    r.arcs[p].srcPort.Some? &&
    r.arcs[p].twin == (match b.arcs[a].twin
                       case Some(t) => Some(NewIndex(b.arcs, u, t))
                       case None => None)
  }

  /** The arcs that survive, in their old order. */
  lemma KeptArcs(arcs: seq<BArc>, u: nat)
    ensures |KeepIndices(arcs, Set(Removed(arcs, u)))| + |Removed(arcs, u)| == |arcs|
  {
    var removed := Removed(arcs, u);
    var s := Set<nat>(removed);
    KeepLen(arcs, s);
    forall x | x in s
      ensures x < |arcs|
    {
      assert x in removed;
    }
    assert (set x | x in s && x < |arcs|) == s;
    assert Rank(s, |arcs|) == |s|;
    assert |KeepIndices(arcs, s)| + |s| == |arcs|;
    DistinctCard<nat>(removed);
  }

  /** Every listed index of the new builder is an arc of it. */
  lemma ListsInRange(b: Builder, u: nat)
    requires u < |b.vertices| && EntriesInRange(b)
    ensures InRange(Lists(b, u, Removed(b.arcs, u)), |KeepIndices(b.arcs, Set(Removed(b.arcs, u)))|)
  {
    var removed := Removed(b.arcs, u);
    var vs := Lists(b, u, removed);
    forall w, k | 0 <= w < |vs| && 0 <= k < |vs[w].arcs|
      ensures vs[w].arcs[k] < |KeepIndices(b.arcs, Set(removed))|
    {
      ListsOrigin(b, u, removed, w, k);
      var x := RetainAll(RemoveAt(b.vertices, u), removed)[w].arcs[k];
      DecreaseKeeps(b.arcs, removed, x);
    }
  }

  /** After the update pass every listed arc starts at its vertex, at its
      position. */
  lemma RemovedListed(b: Builder, u: nat, arcs: seq<BArc>)
    requires Wf(b) && u < |b.vertices|
    requires var base := KeepIndices(b.arcs, Set(Removed(b.arcs, u)));
             var vs := Lists(b, u, Removed(b.arcs, u));
             InRange(vs, |base|) && |arcs| == |base| && Done(vs, base, arcs, |vs|, 0, Removed(b.arcs, u), u)
    ensures Listed(Builder(Lists(b, u, Removed(b.arcs, u)), arcs, b.faces))
  {
    var removed := Removed(b.arcs, u);
    var base := KeepIndices(b.arcs, Set(removed));
    var vs := Lists(b, u, removed);
    forall w, k | 0 <= w < |vs| && 0 <= k < |vs[w].arcs|
      ensures vs[w].arcs[k] < |arcs| && arcs[vs[w].arcs[k]].src == w && arcs[vs[w].arcs[k]].srcPort == Some(k)
    {
      ListsOrigin(b, u, removed, w, k);
      var w0 := ReductionUtils.Unshift(w, u);
      var x := RetainAll(RemoveAt(b.vertices, u), removed)[w].arcs[k];
      DecreaseKeeps(b.arcs, removed, x);
      var k0 :| 0 <= k0 < |b.vertices[w0].arcs| && b.vertices[w0].arcs[k0] == x;
      assert b.arcs[x].src == w0;
      assert Before(vs, |vs|, 0, w, k);
    }
  }

  /** A surviving arc is listed in the new lists, at its shifted source. */
  lemma SurvivorListed(b: Builder, u: nat, a: nat) returns (w: nat, k: nat)
    requires Wf(b) && u < |b.vertices| && a < |b.arcs| && !IncidentTo(b.arcs[a], u)
    ensures w == ReductionUtils.Shift(b.arcs[a].src, u)
    ensures var vs := Lists(b, u, Removed(b.arcs, u));
            w < |vs| && k < |vs[w].arcs| && vs[w].arcs[k] == NewIndex(b.arcs, u, a)
  {
    var removed := Removed(b.arcs, u);
    var s := b.arcs[a].src;
    w := ReductionUtils.Shift(s, u);
    var retained := RetainAll(RemoveAt(b.vertices, u), removed);
    assert b.vertices[s].arcs[b.arcs[a].srcPort.value] == a;
    assert a in retained[w].arcs;
    k :| 0 <= k < |retained[w].arcs| && retained[w].arcs[k] == a;
  }

  /** After the update pass a surviving arc has its ends shifted past `u`
      and its twin renumbered. */
  lemma RemovedRenumbered(b: Builder, u: nat, arcs: seq<BArc>, a: nat)
    requires Wf(b) && u < |b.vertices| && a < |b.arcs| && !IncidentTo(b.arcs[a], u)
    requires var base := KeepIndices(b.arcs, Set(Removed(b.arcs, u)));
             var vs := Lists(b, u, Removed(b.arcs, u));
             InRange(vs, |base|) && |arcs| == |base| && Done(vs, base, arcs, |vs|, 0, Removed(b.arcs, u), u)
    ensures Renumbered(b, u, Builder(Lists(b, u, Removed(b.arcs, u)), arcs, b.faces), a)
  {
    var removed := Removed(b.arcs, u);
    var vs := Lists(b, u, removed);
    var w, k := SurvivorListed(b, u, a);
    DecreaseKeeps(b.arcs, removed, a);
    assert Before(vs, |vs|, 0, w, k);
  }

  /** The removal loop: `self.arcs.remove(*index)` for each index in
      descending order, so that no index moves before its turn. */
  method DropArcs(arcs: seq<BArc>, removed: seq<nat>) returns (r: seq<BArc>)
    requires forall x :: x in removed ==> x < |arcs|
    requires forall i, j :: 0 <= i < j < |removed| ==> removed[i] > removed[j]
    ensures r == KeepIndices(arcs, Set(removed))
  {
    r := arcs;
    KeepAll(arcs, Set(removed[..0]));
    for j := 0 to |removed|
      invariant r == KeepIndices(arcs, Set(removed[..j]))
    {
      assert removed[j] in removed;
      assert forall x :: x in Set(removed[..j]) ==> x > removed[j];
      RemoveAtKeep(arcs, Set(removed[..j]), removed[j]);
      assert Set(removed[..j + 1]) == Set(removed[..j]) + {removed[j]};
      r := r[..removed[j]] + r[removed[j] + 1..];
    }
    assert removed[..|removed|] == removed;
  }

  /** The update pass: each listed arc gets its ends shifted, its port set
      to its position and its twin renumbered. */
  method UpdateArcs(vertices: seq<BVertex>, base: seq<BArc>, removed: seq<nat>, u: nat) returns (arcs: seq<BArc>)
    requires Distinct(removed) && InRange(vertices, |base|)
    ensures Untouched(base, arcs)
    ensures UniqueLists(vertices) ==> Done(vertices, base, arcs, |vertices|, 0, removed, u)
  {
    arcs := base;
    ghost var uniq := UniqueLists(vertices);
    DoneStart(vertices, base, removed, u);
    for w := 0 to |vertices|
      invariant Untouched(base, arcs)
      invariant uniq ==> Done(vertices, base, arcs, w, 0, removed, u)
    {
      for index := 0 to |vertices[w].arcs|
        invariant Untouched(base, arcs)
        invariant uniq ==> Done(vertices, base, arcs, w, index, removed, u)
      {
        var e := vertices[w].arcs[index];
        if uniq {
          DoneStep(vertices, base, arcs, w, index, removed, u);
        }
        arcs := arcs[e := Relabel(arcs[e], index, removed, u)];
      }
      if uniq {
        DoneNext(vertices, base, arcs, w, removed, u);
      }
    }
  }

  /** The untouched fields of every surviving arc. */
  lemma RemovedMoved(b: Builder, u: nat, r: Builder)
    requires Untouched(KeepIndices(b.arcs, Set(Removed(b.arcs, u))), r.arcs)
    ensures forall a :: 0 <= a < |b.arcs| && !IncidentTo(b.arcs[a], u) ==> Moved(b, u, r, a)
  {
    forall a | 0 <= a < |b.arcs| && !IncidentTo(b.arcs[a], u)
      ensures Moved(b, u, r, a)
    {
      DecreaseKeeps(b.arcs, Removed(b.arcs, u), a);
    }
  }

  /** `remove_vertex`: drops the arcs at `u`, then `u`, then renumbers. */
  method RemoveVertex(b: Builder, u: nat) returns (r: Builder)
    requires u < |b.vertices| && EntriesInRange(b)
    ensures |r.vertices| + 1 == |b.vertices| && r.faces == b.faces
    ensures |r.arcs| + |Removed(b.arcs, u)| == |b.arcs|
    ensures forall a :: 0 <= a < |b.arcs| && !IncidentTo(b.arcs[a], u) ==> Moved(b, u, r, a)
    ensures Wf(b) ==> Listed(r)
    ensures Wf(b) ==> forall a :: 0 <= a < |b.arcs| && !IncidentTo(b.arcs[a], u) ==> Renumbered(b, u, r, a)
  {
    var removed := Removed(b.arcs, u);
    var kept := DropArcs(b.arcs, removed);
    KeptArcs(b.arcs, u);

    var vertices := RemoveAt(b.vertices, u);
    vertices := RetainAll(vertices, removed);
    vertices := DecreaseLists(vertices, removed);
    ListsInRange(b, u);
    var arcs := UpdateArcs(vertices, kept, removed, u);
    r := Builder(vertices, arcs, b.faces);

    RemovedMoved(b, u, r);
    if Wf(b) {
      ListsUnique(b, u, removed);
      RemovedListed(b, u, arcs);
      forall a | 0 <= a < |b.arcs| && !IncidentTo(b.arcs[a], u)
        ensures Renumbered(b, u, r, a)
      {
        RemovedRenumbered(b, u, arcs, a);
      }
    }
  }
}
