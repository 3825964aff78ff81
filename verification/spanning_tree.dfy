/** The BFS spanning tree of a DCEL: the arcs the search discovered
    vertices through, each together with its twin, and the level of every
    vertex the search reached through an arc. */
module SpanningTrees {
  import opened Wrappers
  import opened SetSeqs
  import opened Dcels
  import opened Bfs

  datatype SpanningTree = SpanningTree(containsArc: seq<bool>, vertexLevel: seq<nat>, arcs: seq<nat>, maxLevel: nat)

  /** One flag per arc and one level per vertex. */
  predicate Sized(t: SpanningTree, d: Dcel) {
    |t.containsArc| == |d.arcs| && |t.vertexLevel| == |d.vertices|
  }

  /** The item names a vertex, and its arc, if any, names an arc. */
  predicate ItemIn(item: BfsItem, d: Dcel) {
    item.vertex < |d.vertices| && (item.arc.Some? ==> item.arc.value < |d.arcs|)
  }

  predicate ItemsIn(items: seq<BfsItem>, d: Dcel) {
    forall i :: 0 <= i < |items| ==> ItemIn(items[i], d)
  }

  /** `SpanningTree::new`: no arcs, every level 0. */
  function New(d: Dcel): (t: SpanningTree)
    ensures Sized(t, d) && t.arcs == [] && t.maxLevel == 0
    ensures forall a :: 0 <= a < |d.arcs| ==> !t.containsArc[a]
    ensures forall v :: 0 <= v < |d.vertices| ==> t.vertexLevel[v] == 0
  {
    SpanningTree(seq(|d.arcs|, _ => false), seq(|d.vertices|, _ => 0), [], 0)
  }

  /** The body of the loop in `build` for one item: an item discovered
      through an arc adds that arc and its twin and records its level. */
  function Record(t: SpanningTree, d: Dcel, item: BfsItem): (r: SpanningTree)
    requires Closed(d) && Sized(t, d) && ItemIn(item, d)
    ensures Sized(r, d)
    ensures item.arc.None? ==> r == t
  {
    match item.arc
    case None => t
    case Some(a) =>
      var twin := d.arcs[a].twin;
      SpanningTree(t.containsArc[a := true][twin := true], t.vertexLevel[item.vertex := item.level],
                   t.arcs + [a, twin], if item.level > t.maxLevel then item.level else t.maxLevel)
  }

  /** `Record` for every item in order. */
  function RecordAll(t: SpanningTree, d: Dcel, items: seq<BfsItem>): (r: SpanningTree)
    requires Closed(d) && Sized(t, d) && ItemsIn(items, d)
    ensures Sized(r, d)
    decreases |items|
  {
    if items == [] then t
    else
      Record(RecordAll(t, d, items[..|items| - 1]), d, items[|items| - 1])
  }

  /** `build`: run the search from `start` and record every item. */
  function Build(d: Dcel, invalid: seq<bool>, start: nat): (r: Option<SpanningTree>)
    requires Closed(d) && Shaped(d, invalid) && start < |d.vertices|
    ensures r.Some? ==> Sized(r.value, d)
  {
    match Drain(d, invalid, start)
    case None => None
    case Some(items) =>
      if ItemsIn(items, d) then Some(RecordAll(New(d), d, items)) else None
  }

  // ---------------------------------------------------------------------
  // Reference definitions

  /** Arc `a` is an item's arc or the twin of one. */
  ghost predicate Touches(items: seq<BfsItem>, d: Dcel, a: nat)
    requires Closed(d) && ItemsIn(items, d)
  {
    exists i :: 0 <= i < |items| && items[i].arc.Some? &&
      (items[i].arc.value == a || d.arcs[items[i].arc.value].twin == a)
  }

  /** The arcs of the items that have one, in item order. */
  function TreeArcs(items: seq<BfsItem>): (r: seq<nat>)
    ensures |r| <= |items|
  {
    if items == [] then []
    else
      var last := items[|items| - 1];
      TreeArcs(items[..|items| - 1]) + (if last.arc.Some? then [last.arc.value] else [])
  }

  /** An arc is listed exactly when some item was discovered through it. */
  lemma {:induction false} TreeArcsMembers(items: seq<BfsItem>)
    ensures forall x :: x in TreeArcs(items) <==> exists i :: 0 <= i < |items| && items[i].arc == Some(x)
    decreases |items|
  {
    if items != [] {
      var init := items[..|items| - 1];
      TreeArcsMembers(init);
      assert forall i :: 0 <= i < |init| ==> items[i] == init[i];
    }
  }

  /** Each arc followed by its twin. */
  function Paired(d: Dcel, xs: seq<nat>): (r: seq<nat>)
    requires Closed(d) && forall k :: 0 <= k < |xs| ==> xs[k] < |d.arcs|
    ensures |r| == 2 * |xs|
    ensures forall k :: 0 <= k < |xs| ==> r[2 * k] == xs[k] && r[2 * k + 1] == d.arcs[xs[k]].twin
  {
    if xs == [] then []
    else [xs[0], d.arcs[xs[0]].twin] + Paired(d, xs[1..])
  }

  lemma TreeArcsIn(items: seq<BfsItem>, d: Dcel)
    requires ItemsIn(items, d)
    ensures forall k :: 0 <= k < |TreeArcs(items)| ==> TreeArcs(items)[k] < |d.arcs|
  {
    TreeArcsMembers(items);
    forall k | 0 <= k < |TreeArcs(items)|
      ensures TreeArcs(items)[k] < |d.arcs|
    {
      assert TreeArcs(items)[k] in TreeArcs(items);
    }
  }

  lemma {:induction false} PairedAppend(d: Dcel, xs: seq<nat>, ys: seq<nat>)
    requires Closed(d)
    requires forall k :: 0 <= k < |xs| ==> xs[k] < |d.arcs|
    requires forall k :: 0 <= k < |ys| ==> ys[k] < |d.arcs|
    ensures forall k :: 0 <= k < |xs + ys| ==> (xs + ys)[k] < |d.arcs|
    ensures Paired(d, xs + ys) == Paired(d, xs) + Paired(d, ys)
    decreases |xs|
  {
    AppendBelow(xs, ys, |d.arcs|);
    if xs == [] {
      assert xs + ys == ys;
    } else {
      assert (xs + ys)[1..] == xs[1..] + ys;
      PairedAppend(d, xs[1..], ys);
    }
  }

  lemma AppendBelow(xs: seq<nat>, ys: seq<nat>, n: nat)
    requires forall k :: 0 <= k < |xs| ==> xs[k] < n
    requires forall k :: 0 <= k < |ys| ==> ys[k] < n
    ensures forall k :: 0 <= k < |xs + ys| ==> (xs + ys)[k] < n
  {
    forall k | 0 <= k < |xs + ys|
      ensures (xs + ys)[k] < n
    {
      if k >= |xs| {
        assert (xs + ys)[k] == ys[k - |xs|];
      }
    }
  }

  // ---------------------------------------------------------------------
  // What recording does

  /** An arc is in the tree exactly when it was already or it is an item's
      arc or that arc's twin. */
  lemma {:induction false} RecordAllContains(t: SpanningTree, d: Dcel, items: seq<BfsItem>)
    requires Closed(d) && Sized(t, d) && ItemsIn(items, d)
    ensures forall a :: 0 <= a < |d.arcs| ==>
      (RecordAll(t, d, items).containsArc[a] <==> t.containsArc[a] || Touches(items, d, a))
    decreases |items|
  {
    if items != [] {
      var init := items[..|items| - 1];
      RecordAllContains(t, d, init);
      forall a | 0 <= a < |d.arcs|
        ensures Touches(items, d, a) <==> (Touches(init, d, a) ||
          (items[|items| - 1].arc.Some? && (items[|items| - 1].arc.value == a || d.arcs[items[|items| - 1].arc.value].twin == a)))
      {
        if Touches(init, d, a) {
          var i :| 0 <= i < |init| && init[i].arc.Some? && (init[i].arc.value == a || d.arcs[init[i].arc.value].twin == a);
          assert items[i] == init[i];
        }
        if Touches(items, d, a) {
          var i :| 0 <= i < |items| && items[i].arc.Some? && (items[i].arc.value == a || d.arcs[items[i].arc.value].twin == a);
          if i < |init| {
            assert items[i] == init[i];
          }
        }
      }
    }
  }

  /** The tree's arc list is the item arcs in order, each followed by its
      twin, after the arcs already there. */
  lemma {:induction false} RecordAllArcs(t: SpanningTree, d: Dcel, items: seq<BfsItem>)
    requires Closed(d) && Sized(t, d) && ItemsIn(items, d)
    ensures forall k :: 0 <= k < |TreeArcs(items)| ==> TreeArcs(items)[k] < |d.arcs|
    ensures RecordAll(t, d, items).arcs == t.arcs + Paired(d, TreeArcs(items))
    decreases |items|
  {
    TreeArcsIn(items, d);
    if items != [] {
      var init := items[..|items| - 1];
      var last := items[|items| - 1];
      assert ItemsIn(init, d) && ItemIn(last, d);
      RecordAllArcs(t, d, init);
      var prev := RecordAll(t, d, init);
      if last.arc.Some? {
        var a := last.arc.value;
        PairedAppend(d, TreeArcs(init), [a]);
        assert Paired(d, [a]) == [a, d.arcs[a].twin];
        assert RecordAll(t, d, items).arcs == prev.arcs + [a, d.arcs[a].twin];
      } else {
        assert TreeArcs(items) == TreeArcs(init);
      }
    }
  }

  /** An item discovered through an arc has its level recorded, and every
      other vertex keeps its level. */
  lemma {:induction false} RecordAllLevel(t: SpanningTree, d: Dcel, items: seq<BfsItem>)
    requires Closed(d) && Sized(t, d) && ItemsIn(items, d) && Distinct(Vertices(items))
    ensures forall i :: 0 <= i < |items| && items[i].arc.Some? ==>
      RecordAll(t, d, items).vertexLevel[items[i].vertex] == items[i].level
    ensures forall v :: 0 <= v < |d.vertices| && (forall i :: 0 <= i < |items| && items[i].arc.Some? ==> items[i].vertex != v) ==>
      RecordAll(t, d, items).vertexLevel[v] == t.vertexLevel[v]
    decreases |items|
  {
    if items != [] {
      var init := items[..|items| - 1];
      var n := |items| - 1;
      assert Vertices(init) == Vertices(items)[..n];
      RecordAllLevel(t, d, init);
      forall i | 0 <= i < |items| && items[i].arc.Some?
        ensures RecordAll(t, d, items).vertexLevel[items[i].vertex] == items[i].level
      {
        if i < n {
          assert items[i] == init[i];
          assert Vertices(items)[i] != Vertices(items)[n];
        }
      }
      forall v | 0 <= v < |d.vertices| && (forall i :: 0 <= i < |items| && items[i].arc.Some? ==> items[i].vertex != v)
        ensures RecordAll(t, d, items).vertexLevel[v] == t.vertexLevel[v]
      {
        forall i | 0 <= i < |init| && init[i].arc.Some?
          ensures init[i].vertex != v
        {
          assert items[i] == init[i];
        }
      }
    }
  }

  /** The recorded maximum is the largest level among the items discovered
      through an arc, or the earlier maximum. */
  lemma {:induction false} RecordAllMax(t: SpanningTree, d: Dcel, items: seq<BfsItem>)
    requires Closed(d) && Sized(t, d) && ItemsIn(items, d)
    ensures t.maxLevel <= RecordAll(t, d, items).maxLevel
    ensures forall i :: 0 <= i < |items| && items[i].arc.Some? ==> items[i].level <= RecordAll(t, d, items).maxLevel
    ensures RecordAll(t, d, items).maxLevel == t.maxLevel ||
      exists i :: 0 <= i < |items| && items[i].arc.Some? && items[i].level == RecordAll(t, d, items).maxLevel
    decreases |items|
  {
    if items != [] {
      var init := items[..|items| - 1];
      RecordAllMax(t, d, init);
      forall i | 0 <= i < |init|
        ensures items[i] == init[i]
      {
      }
    }
  }

  // ---------------------------------------------------------------------
  // The tree `build` makes

  /** The BFS items name vertices and arcs of the DCEL. */
  lemma OrderItemsIn(items: seq<BfsItem>, d: Dcel, invalid: seq<bool>, start: nat)
    requires Shaped(d, invalid) && BfsOrder(items, d, invalid, start)
    ensures ItemsIn(items, d)
  {
    forall i | 0 <= i < |items|
      ensures items[i].vertex < |d.vertices| && (items[i].arc.Some? ==> items[i].arc.value < |d.arcs|)
    {
      if i > 0 {
        assert Parented(items, d, invalid, i);
      }
    }
  }

  /** `build` from `start` succeeds. Its tree holds exactly the arcs the
      search discovered vertices through and their twins, lists them in
      discovery order each followed by its twin, records every yielded
      vertex's BFS level, and keeps the largest level as its maximum. */
  lemma BuildTree(d: Dcel, invalid: seq<bool>, start: nat) returns (items: seq<BfsItem>, t: SpanningTree)
    requires Closed(d) && Shaped(d, invalid) && start < |d.vertices|
    ensures Drain(d, invalid, start) == Some(items) && BfsOrder(items, d, invalid, start)
    ensures Build(d, invalid, start) == Some(t) && ItemsIn(items, d)
    ensures forall a :: 0 <= a < |d.arcs| ==> (t.containsArc[a] <==> Touches(items, d, a))
    ensures forall k :: 0 <= k < |TreeArcs(items)| ==> TreeArcs(items)[k] < |d.arcs|
    ensures t.arcs == Paired(d, TreeArcs(items))
    ensures forall i :: 0 <= i < |items| ==> t.vertexLevel[items[i].vertex] == items[i].level
    ensures forall i :: 0 <= i < |items| ==> items[i].level <= t.maxLevel
    ensures exists i :: 0 <= i < |items| && items[i].level == t.maxLevel
  {
    items := DrainOrder(d, invalid, start);
    OrderItemsIn(items, d, invalid, start);
    var t0 := New(d);
    t := RecordAll(t0, d, items);
    RecordAllContains(t0, d, items);
    RecordAllArcs(t0, d, items);
    RecordAllLevel(t0, d, items);
    RecordAllMax(t0, d, items);
    forall i | 0 <= i < |items|
      ensures t.vertexLevel[items[i].vertex] == items[i].level && items[i].level <= t.maxLevel
    {
      if i > 0 {
        assert Parented(items, d, invalid, i);
      } else {
        forall j | 0 <= j < |items| && items[j].arc.Some?
          ensures items[j].vertex != items[0].vertex
        {
          assert Vertices(items)[j] != Vertices(items)[0];
        }
      }
    }
    assert items[0].level == 0;
  }

  /** When twins pair up, the tree holds an arc exactly when it holds its
      twin. */
  lemma TreeTwinClosed(items: seq<BfsItem>, d: Dcel, t: SpanningTree)
    requires Closed(d) && ItemsIn(items, d) && Sized(t, d)
    requires forall a :: 0 <= a < |d.arcs| ==> d.arcs[d.arcs[a].twin].twin == a
    requires forall a :: 0 <= a < |d.arcs| ==> (t.containsArc[a] <==> Touches(items, d, a))
    ensures forall a :: 0 <= a < |d.arcs| ==> t.containsArc[d.arcs[a].twin] == t.containsArc[a]
  {
    forall a | 0 <= a < |d.arcs|
      ensures Touches(items, d, d.arcs[a].twin) <==> Touches(items, d, a)
    {
      var b := d.arcs[a].twin;
      if Touches(items, d, a) {
        var i :| 0 <= i < |items| && items[i].arc.Some? && (items[i].arc.value == a || d.arcs[items[i].arc.value].twin == a);
        var c := items[i].arc.value;
        if c != a {
          assert d.arcs[d.arcs[c].twin].twin == c;
          assert b == c;
        }
      }
      if Touches(items, d, b) {
        var i :| 0 <= i < |items| && items[i].arc.Some? && (items[i].arc.value == b || d.arcs[items[i].arc.value].twin == b);
        var c := items[i].arc.value;
        if c != b {
          assert d.arcs[c].twin == b;
          assert d.arcs[d.arcs[c].twin].twin == c;
        }
      }
    }
  }
}
