/** Breadth-first search over the vertices of a DCEL, following each
    vertex's outgoing arcs and skipping the arcs flagged invalid. */
module Bfs {
  import opened Wrappers
  import opened SetSeqs
  import opened Dcels

  datatype BfsItem = BfsItem(level: nat, vertex: nat, arc: Option<nat>)

  datatype BfsIter = BfsIter(queue: seq<nat>, discovered: seq<bool>, discoveredArc: seq<Option<nat>>,
                             visited: seq<bool>, level: seq<nat>)

  /** Every arc id a vertex lists names an arc, every arc's ends are
      vertices, a vertex lists only arcs leaving it, and there is an
      invalid flag per arc. */
  predicate Shaped(d: Dcel, invalid: seq<bool>) {
    |invalid| == |d.arcs| &&
    (forall a :: 0 <= a < |d.arcs| ==> d.arcs[a].src < |d.vertices| && d.arcs[a].dst < |d.vertices|) &&
    forall v, k {:trigger d.vertices[v].arcs[k]} :: 0 <= v < |d.vertices| && 0 <= k < |d.vertices[v].arcs| ==>
      d.vertices[v].arcs[k] < |d.arcs| && d.arcs[d.vertices[v].arcs[k]].src == v
  }

  /** One flag, arc and level per vertex, and only vertices queued. */
  predicate Sized(it: BfsIter, n: nat) {
    |it.discovered| == n && |it.discoveredArc| == n && |it.visited| == n && |it.level| == n &&
    forall k :: 0 <= k < |it.queue| ==> it.queue[k] < n
  }

  /** `BfsIter::new`: only `start` is queued and discovered. */
  function New(d: Dcel, start: nat): (it: BfsIter)
    requires start < |d.vertices|
    ensures Sized(it, |d.vertices|) && it.queue == [start]
    ensures forall v :: 0 <= v < |d.vertices| ==>
      (it.discovered[v] <==> v == start) && !it.visited[v] && it.discoveredArc[v].None? && it.level[v] == 0
  {
    var n := |d.vertices|;
    BfsIter([start], seq(n, _ => false)[start := true], seq(n, _ => None), seq(n, _ => false), seq(n, _ => 0))
  }

  /** Arc `a` discovers its end: it is valid and its end is undiscovered. */
  predicate Takes(it: BfsIter, d: Dcel, invalid: seq<bool>, a: nat)
    requires Shaped(d, invalid) && Sized(it, |d.vertices|) && a < |d.arcs|
  {
    !invalid[a] && !it.discovered[d.arcs[a].dst]
  }

  /** One arc of the scan in `next`: a valid arc to an undiscovered vertex
      discovers it one level below `v` and queues it. */
  function Discover(it: BfsIter, d: Dcel, invalid: seq<bool>, v: nat, a: nat): (r: BfsIter)
    requires Shaped(d, invalid) && Sized(it, |d.vertices|) && v < |d.vertices| && a < |d.arcs|
    ensures Sized(r, |d.vertices|) && r.visited == it.visited
    ensures !Takes(it, d, invalid, a) ==> r == it
  {
    if invalid[a] then it
    else
      var n := d.arcs[a].dst;
      if it.discovered[n] then it
      else it.(discoveredArc := it.discoveredArc[n := Some(a)], discovered := it.discovered[n := true],
               level := it.level[n := it.level[v] + 1], queue := it.queue + [n])
  }

  /** The arcs of `v` from the list `arcs` on, in order. */
  function Scan(it: BfsIter, d: Dcel, invalid: seq<bool>, v: nat, arcs: seq<nat>): (r: BfsIter)
    requires Shaped(d, invalid) && Sized(it, |d.vertices|) && v < |d.vertices| && it.discovered[v]
    requires forall k :: 0 <= k < |arcs| ==> arcs[k] < |d.arcs|
    ensures Sized(r, |d.vertices|) && r.visited == it.visited && r.discovered[v]
    ensures |it.queue| <= |r.queue| && r.queue[..|it.queue|] == it.queue
    ensures forall k :: |it.queue| <= k < |r.queue| ==> Found(it, r, d, invalid, v, arcs, r.queue[k])
    ensures Distinct(r.queue[|it.queue|..])
    ensures forall w :: 0 <= w < |d.vertices| ==> (r.discovered[w] <==> it.discovered[w] || w in r.queue[|it.queue|..])
    ensures forall w :: 0 <= w < |d.vertices| && it.discovered[w] ==> Kept(it, r, w)
    ensures forall k :: 0 <= k < |arcs| && !invalid[arcs[k]] ==> r.discovered[d.arcs[arcs[k]].dst]
    decreases |arcs|
  {
    if arcs == [] then it
    else
      var it1 := Discover(it, d, invalid, v, arcs[0]);
      var r := Scan(it1, d, invalid, v, arcs[1..]);
      ScanPrefix(it, it1, r, d, invalid, v, arcs);
      ScanFound(it, it1, r, d, invalid, v, arcs);
      ScanDistinct(it, it1, r, d, invalid, v, arcs);
      ScanDiscovered(it, it1, r, d, invalid, v, arcs);
      ScanKept(it, it1, r, d, invalid, v, arcs);
      ScanReaches(it, it1, r, d, invalid, v, arcs);
      r
  }

  /** A discovered vertex keeps its level and discovering arc. */
  predicate Kept(it: BfsIter, r: BfsIter, w: nat)
    requires w < |it.level| && w < |r.level| && w < |it.discoveredArc| && w < |r.discoveredArc|
  {
    r.level[w] == it.level[w] && r.discoveredArc[w] == it.discoveredArc[w]
  }

  /** Vertex `w` was discovered by the scan of `v`: through a valid arc of
      `v` ending at `w`, one level below `v`. */
  ghost predicate Found(it: BfsIter, r: BfsIter, d: Dcel, invalid: seq<bool>, v: nat, arcs: seq<nat>, w: nat)
    requires Shaped(d, invalid) && Sized(it, |d.vertices|) && Sized(r, |d.vertices|) && v < |d.vertices|
  {
    w < |d.vertices| && !it.discovered[w] && r.level[w] == it.level[v] + 1 &&
    r.discoveredArc[w].Some? && r.discoveredArc[w].value in arcs &&
    r.discoveredArc[w].value < |d.arcs| && !invalid[r.discoveredArc[w].value] &&
    d.arcs[r.discoveredArc[w].value].dst == w
  }

  lemma ScanPrefix(it: BfsIter, it1: BfsIter, r: BfsIter, d: Dcel, invalid: seq<bool>, v: nat, arcs: seq<nat>)
    requires Shaped(d, invalid) && Sized(it, |d.vertices|) && v < |d.vertices| && it.discovered[v]
    requires forall k :: 0 <= k < |arcs| ==> arcs[k] < |d.arcs|
    requires arcs != [] && it1 == Discover(it, d, invalid, v, arcs[0])
    requires |it1.queue| <= |r.queue| && r.queue[..|it1.queue|] == it1.queue
    ensures |it.queue| <= |r.queue| && r.queue[..|it.queue|] == it.queue
    ensures |it1.queue| == |it.queue| + (if Takes(it, d, invalid, arcs[0]) then 1 else 0)
    ensures Takes(it, d, invalid, arcs[0]) ==> r.queue[|it.queue|] == d.arcs[arcs[0]].dst
  {
    assert it1.queue[..|it.queue|] == it.queue;
  }

  lemma ScanFound(it: BfsIter, it1: BfsIter, r: BfsIter, d: Dcel, invalid: seq<bool>, v: nat, arcs: seq<nat>)
    requires Shaped(d, invalid) && Sized(it, |d.vertices|) && v < |d.vertices| && it.discovered[v]
    requires forall k :: 0 <= k < |arcs| ==> arcs[k] < |d.arcs|
    requires arcs != [] && it1 == Discover(it, d, invalid, v, arcs[0])
    requires Sized(r, |d.vertices|) && |it1.queue| <= |r.queue| && r.queue[..|it1.queue|] == it1.queue
    requires forall k :: |it1.queue| <= k < |r.queue| ==> Found(it1, r, d, invalid, v, arcs[1..], r.queue[k])
    requires forall w :: 0 <= w < |d.vertices| && it1.discovered[w] ==> Kept(it1, r, w)
    ensures forall k :: |it.queue| <= k < |r.queue| ==> Found(it, r, d, invalid, v, arcs, r.queue[k])
  {
    ScanPrefix(it, it1, r, d, invalid, v, arcs);
    assert it1.level[v] == it.level[v] && it1.discovered[v];
    forall k | |it.queue| <= k < |r.queue|
      ensures Found(it, r, d, invalid, v, arcs, r.queue[k])
    {
      if k >= |it1.queue| {
        assert Found(it1, r, d, invalid, v, arcs[1..], r.queue[k]);
        assert !it.discovered[r.queue[k]];
      } else {
        var n := d.arcs[arcs[0]].dst;
        assert r.queue[k] == n && it1.discovered[n];
        assert Kept(it1, r, n);
      }
    }
  }

  lemma ScanDistinct(it: BfsIter, it1: BfsIter, r: BfsIter, d: Dcel, invalid: seq<bool>, v: nat, arcs: seq<nat>)
    requires Shaped(d, invalid) && Sized(it, |d.vertices|) && v < |d.vertices| && it.discovered[v]
    requires forall k :: 0 <= k < |arcs| ==> arcs[k] < |d.arcs|
    requires arcs != [] && it1 == Discover(it, d, invalid, v, arcs[0])
    requires Sized(r, |d.vertices|) && |it1.queue| <= |r.queue| && r.queue[..|it1.queue|] == it1.queue
    requires forall k :: |it1.queue| <= k < |r.queue| ==> Found(it1, r, d, invalid, v, arcs[1..], r.queue[k])
    requires Distinct(r.queue[|it1.queue|..])
    ensures Distinct(r.queue[|it.queue|..])
  {
    ScanPrefix(it, it1, r, d, invalid, v, arcs);
    var q0 := |it.queue|;
    var q1 := |it1.queue|;
    if q1 == q0 + 1 {
      var n := d.arcs[arcs[0]].dst;
      forall k | q1 <= k < |r.queue|
        ensures r.queue[k] != n
      {
        assert Found(it1, r, d, invalid, v, arcs[1..], r.queue[k]);
        assert it1.discovered[n];
      }
      assert r.queue[q0..] == [n] + r.queue[q1..];
    }
  }

  lemma ScanDiscovered(it: BfsIter, it1: BfsIter, r: BfsIter, d: Dcel, invalid: seq<bool>, v: nat, arcs: seq<nat>)
    requires Shaped(d, invalid) && Sized(it, |d.vertices|) && v < |d.vertices| && it.discovered[v]
    requires forall k :: 0 <= k < |arcs| ==> arcs[k] < |d.arcs|
    requires arcs != [] && it1 == Discover(it, d, invalid, v, arcs[0])
    requires Sized(r, |d.vertices|) && |it1.queue| <= |r.queue| && r.queue[..|it1.queue|] == it1.queue
    requires forall w :: 0 <= w < |d.vertices| ==> (r.discovered[w] <==> it1.discovered[w] || w in r.queue[|it1.queue|..])
    ensures forall w :: 0 <= w < |d.vertices| ==> (r.discovered[w] <==> it.discovered[w] || w in r.queue[|it.queue|..])
  {
    ScanPrefix(it, it1, r, d, invalid, v, arcs);
    var q0 := |it.queue|;
    var q1 := |it1.queue|;
    if q1 == q0 + 1 {
      assert r.queue[q0..] == [r.queue[q0]] + r.queue[q1..];
    } else {
      assert r.queue[q0..] == r.queue[q1..];
    }
  }

  lemma ScanKept(it: BfsIter, it1: BfsIter, r: BfsIter, d: Dcel, invalid: seq<bool>, v: nat, arcs: seq<nat>)
    requires Shaped(d, invalid) && Sized(it, |d.vertices|) && v < |d.vertices| && it.discovered[v]
    requires forall k :: 0 <= k < |arcs| ==> arcs[k] < |d.arcs|
    requires arcs != [] && it1 == Discover(it, d, invalid, v, arcs[0]) && Sized(r, |d.vertices|)
    requires forall w :: 0 <= w < |d.vertices| && it1.discovered[w] ==> Kept(it1, r, w)
    ensures forall w :: 0 <= w < |d.vertices| && it.discovered[w] ==> Kept(it, r, w)
  {
    forall w | 0 <= w < |d.vertices| && it.discovered[w]
      ensures Kept(it, r, w)
    {
      assert it1.discovered[w] && Kept(it, it1, w);
      assert Kept(it1, r, w);
    }
  }

  lemma ScanReaches(it: BfsIter, it1: BfsIter, r: BfsIter, d: Dcel, invalid: seq<bool>, v: nat, arcs: seq<nat>)
    requires Shaped(d, invalid) && Sized(it, |d.vertices|) && v < |d.vertices| && it.discovered[v]
    requires forall k :: 0 <= k < |arcs| ==> arcs[k] < |d.arcs|
    requires arcs != [] && it1 == Discover(it, d, invalid, v, arcs[0]) && Sized(r, |d.vertices|)
    requires forall w :: 0 <= w < |d.vertices| ==> (it1.discovered[w] ==> r.discovered[w])
    requires forall k :: 0 <= k < |arcs| - 1 && !invalid[arcs[1..][k]] ==> r.discovered[d.arcs[arcs[1..][k]].dst]
    ensures forall k :: 0 <= k < |arcs| && !invalid[arcs[k]] ==> r.discovered[d.arcs[arcs[k]].dst]
  {
    forall k | 0 <= k < |arcs| && !invalid[arcs[k]]
      ensures r.discovered[d.arcs[arcs[k]].dst]
    {
      if k > 0 {
        assert arcs[k] == arcs[1..][k - 1];
      } else {
        assert it1.discovered[d.arcs[arcs[0]].dst];
      }
    }
  }

  /** `next`: pops the front of the queue, scans its arcs, marks it visited
      and yields it with its level and discovering arc; `None` once the
      queue is empty. */
  function Next(it: BfsIter, d: Dcel, invalid: seq<bool>): (r: (Option<BfsItem>, BfsIter))
    requires Shaped(d, invalid) && Sized(it, |d.vertices|)
    requires forall k :: 0 <= k < |it.queue| ==> it.discovered[it.queue[k]]
    ensures Sized(r.1, |d.vertices|)
    ensures r.0.None? <==> it.queue == []
    ensures r.0.Some? ==> r.0.value.vertex == it.queue[0] && r.1.visited[it.queue[0]]
    ensures r.0.Some? ==> r.0.value.level == it.level[it.queue[0]] && r.0.value.arc == it.discoveredArc[it.queue[0]]
    ensures forall k :: 0 <= k < |r.1.queue| ==> r.1.discovered[r.1.queue[k]]
  {
    if it.queue == [] then (None, it)
    else
      var vertex := it.queue[0];
      var item := BfsItem(it.level[vertex], vertex, it.discoveredArc[vertex]);
      var it0 := it.(queue := it.queue[1..]);
      var it1 := Scan(it0, d, invalid, vertex, d.vertices[vertex].arcs);
      assert forall k :: 0 <= k < |it1.queue| ==> it1.discovered[it1.queue[k]] by {
        forall k | 0 <= k < |it1.queue|
          ensures it1.discovered[it1.queue[k]]
        {
          if k < |it0.queue| {
            assert it1.queue[k] == it0.queue[k];
          } else {
            assert it1.queue[k] == it1.queue[|it0.queue|..][k - |it0.queue|];
          }
        }
      }
      (Some(item), it1.(visited := it1.visited[vertex := true]))
  }

  /** `while let Some(it) = iter.next()`: the items from `it` on, after
      `acc`; `None` when `fuel` runs out first. */
  function DrainFrom(it: BfsIter, acc: seq<BfsItem>, d: Dcel, invalid: seq<bool>, fuel: nat): (r: Option<seq<BfsItem>>)
    requires Shaped(d, invalid) && Sized(it, |d.vertices|)
    requires forall k :: 0 <= k < |it.queue| ==> it.discovered[it.queue[k]]
    decreases fuel
  {
    if fuel == 0 then None
    else
      var (item, next) := Next(it, d, invalid);
      match item
      case None => Some(acc)
      case Some(x) => DrainFrom(next, acc + [x], d, invalid, fuel - 1)
  }

  /** All the items of a search from `start`, with fuel for one pop per
      vertex and the final empty one. */
  function Drain(d: Dcel, invalid: seq<bool>, start: nat): Option<seq<BfsItem>>
    requires Shaped(d, invalid) && start < |d.vertices|
  {
    DrainFrom(New(d, start), [], d, invalid, |d.vertices| + 1)
  }

  // ---------------------------------------------------------------------
  // What the search yields

  function Vertices(items: seq<BfsItem>): (r: seq<nat>)
    ensures |r| == |items| && forall i :: 0 <= i < |items| ==> r[i] == items[i].vertex
  {
    seq(|items|, i requires 0 <= i < |items| => items[i].vertex)
  }

  /** Item `i` came through a valid arc ending at its vertex, from a vertex
      yielded earlier one level up. */
  ghost predicate Parented(items: seq<BfsItem>, d: Dcel, invalid: seq<bool>, i: nat)
    requires |invalid| == |d.arcs| && i < |items|
  {
    items[i].arc.Some? && items[i].arc.value < |d.arcs| &&
    d.arcs[items[i].arc.value].dst == items[i].vertex && !invalid[items[i].arc.value] &&
    exists j :: 0 <= j < i && items[j].vertex == d.arcs[items[i].arc.value].src && items[j].level + 1 == items[i].level
  }

  /** A BFS order from `start`: `start` first at level 0 with no arc, no
      vertex twice, levels never decrease, and every later item discovered
      from an earlier one. */
  ghost predicate BfsOrder(items: seq<BfsItem>, d: Dcel, invalid: seq<bool>, start: nat)
    requires |invalid| == |d.arcs|
  {
    (items != [] ==> items[0] == BfsItem(0, start, None)) &&
    Distinct(Vertices(items)) &&
    (forall i :: 0 <= i < |items| ==> items[i].vertex < |d.vertices|) &&
    (forall i, j :: 0 <= i < j < |items| ==> items[i].level <= items[j].level) &&
    forall i :: 0 < i < |items| ==> Parented(items, d, invalid, i)
  }

  // ---------------------------------------------------------------------
  // The loop invariant of the search

  ghost predicate QueueOk(it: BfsIter)
    requires Sized(it, |it.discovered|)
  {
    Distinct(it.queue) && forall k :: 0 <= k < |it.queue| ==> it.discovered[it.queue[k]] && !it.visited[it.queue[k]]
  }

  ghost predicate Seen(it: BfsIter, n: nat)
    requires Sized(it, n)
  {
    forall v :: 0 <= v < n ==> (it.discovered[v] <==> it.visited[v] || v in it.queue)
  }

  ghost predicate Emitted(it: BfsIter, acc: seq<BfsItem>, n: nat)
    requires Sized(it, n)
  {
    forall v :: 0 <= v < n ==> (it.visited[v] <==> v in Vertices(acc))
  }

  ghost predicate Stable(it: BfsIter, acc: seq<BfsItem>, n: nat)
    requires Sized(it, n)
  {
    forall i :: 0 <= i < |acc| ==>
      acc[i].vertex < n && acc[i].level == it.level[acc[i].vertex] && acc[i].arc == it.discoveredArc[acc[i].vertex]
  }

  /** Discovered vertex `v` came through a valid arc from a visited vertex
      one level up. */
  ghost predicate Tree(it: BfsIter, d: Dcel, invalid: seq<bool>, v: nat)
    requires Shaped(d, invalid) && Sized(it, |d.vertices|) && v < |d.vertices|
  {
    it.discoveredArc[v].Some? && it.discoveredArc[v].value < |d.arcs| &&
    d.arcs[it.discoveredArc[v].value].dst == v && !invalid[it.discoveredArc[v].value] &&
    it.visited[d.arcs[it.discoveredArc[v].value].src] &&
    it.level[v] == it.level[d.arcs[it.discoveredArc[v].value].src] + 1
  }

  ghost predicate Origin(it: BfsIter, d: Dcel, invalid: seq<bool>, start: nat)
    requires Shaped(d, invalid) && Sized(it, |d.vertices|) && start < |d.vertices|
  {
    it.discovered[start] && it.discoveredArc[start].None? && it.level[start] == 0 &&
    forall v :: 0 <= v < |d.vertices| && it.discovered[v] && v != start ==> Tree(it, d, invalid, v)
  }

  /** Queued levels rise by at most one from front to back, and no yielded
      level exceeds a queued one. */
  ghost predicate Fifo(it: BfsIter, acc: seq<BfsItem>, n: nat)
    requires Sized(it, n)
  {
    (forall i, j :: 0 <= i < j < |it.queue| ==>
       it.level[it.queue[i]] <= it.level[it.queue[j]] <= it.level[it.queue[i]] + 1) &&
    forall i, k :: 0 <= i < |acc| && 0 <= k < |it.queue| ==> acc[i].level <= it.level[it.queue[k]]
  }

  /** Every valid arc of a visited vertex ends at a discovered vertex. */
  ghost predicate Reached(it: BfsIter, d: Dcel, invalid: seq<bool>)
    requires Shaped(d, invalid) && Sized(it, |d.vertices|)
  {
    forall u, k {:trigger d.vertices[u].arcs[k], it.visited[u]} ::
      0 <= u < |d.vertices| && it.visited[u] && 0 <= k < |d.vertices[u].arcs| && !invalid[d.vertices[u].arcs[k]] ==>
      it.discovered[d.arcs[d.vertices[u].arcs[k]].dst]
  }

  /** A valid arc of a visited vertex leads at most one level further. */
  ghost predicate Tight(it: BfsIter, d: Dcel, invalid: seq<bool>)
    requires Shaped(d, invalid) && Sized(it, |d.vertices|)
  {
    forall u, k {:trigger d.vertices[u].arcs[k], it.visited[u]} ::
      0 <= u < |d.vertices| && it.visited[u] && 0 <= k < |d.vertices[u].arcs| && !invalid[d.vertices[u].arcs[k]] ==>
      it.level[d.arcs[d.vertices[u].arcs[k]].dst] <= it.level[u] + 1
  }

  ghost predicate Inv(it: BfsIter, acc: seq<BfsItem>, d: Dcel, invalid: seq<bool>, start: nat) {
    Shaped(d, invalid) && Sized(it, |d.vertices|) && start < |d.vertices| &&
    QueueOk(it) && Seen(it, |d.vertices|) && Emitted(it, acc, |d.vertices|) && Stable(it, acc, |d.vertices|) &&
    Origin(it, d, invalid, start) && Fifo(it, acc, |d.vertices|) && Reached(it, d, invalid) &&
    Tight(it, d, invalid) && BfsOrder(acc, d, invalid, start) && (acc == [] ==> it.queue == [start])
  }

  // ---------------------------------------------------------------------
  // One step of the search

  /** What one `next` call does to the state, from the scan's contract. */
  ghost predicate Stepped(it: BfsIter, it2: BfsIter, d: Dcel, invalid: seq<bool>, v: nat)
    requires Shaped(d, invalid) && Sized(it, |d.vertices|) && Sized(it2, |d.vertices|) && v < |d.vertices|
  {
    it.queue != [] && v == it.queue[0] &&
    |it.queue| - 1 <= |it2.queue| && it2.queue[..|it.queue| - 1] == it.queue[1..] &&
    (forall k :: |it.queue| - 1 <= k < |it2.queue| ==> Found(it, it2, d, invalid, v, d.vertices[v].arcs, it2.queue[k])) &&
    Distinct(it2.queue[|it.queue| - 1..]) &&
    (forall w :: 0 <= w < |d.vertices| ==> (it2.discovered[w] <==> it.discovered[w] || w in it2.queue[|it.queue| - 1..])) &&
    (forall w :: 0 <= w < |d.vertices| && it.discovered[w] ==> Kept(it, it2, w)) &&
    (forall k :: 0 <= k < |d.vertices[v].arcs| && !invalid[d.vertices[v].arcs[k]] ==>
       it2.discovered[d.arcs[d.vertices[v].arcs[k]].dst]) &&
    it2.visited == it.visited[v := true]
  }

  lemma NextStepped(it: BfsIter, d: Dcel, invalid: seq<bool>)
    requires Shaped(d, invalid) && Sized(it, |d.vertices|) && it.queue != []
    requires forall k :: 0 <= k < |it.queue| ==> it.discovered[it.queue[k]]
    ensures Stepped(it, Next(it, d, invalid).1, d, invalid, it.queue[0])
  {
    var v := it.queue[0];
    var it0 := it.(queue := it.queue[1..]);
    var it1 := Scan(it0, d, invalid, v, d.vertices[v].arcs);
    var it2 := Next(it, d, invalid).1;
    assert it2 == it1.(visited := it1.visited[v := true]);
    forall k | |it.queue| - 1 <= k < |it2.queue|
      ensures Found(it, it2, d, invalid, v, d.vertices[v].arcs, it2.queue[k])
    {
      assert Found(it0, it1, d, invalid, v, d.vertices[v].arcs, it1.queue[k]);
    }
    forall w | 0 <= w < |d.vertices| && it.discovered[w]
      ensures Kept(it, it2, w)
    {
      assert Kept(it0, it1, w);
    }
  }

  /** The state after popping `v`, in terms of the queue before. */
  lemma SteppedQueue(it: BfsIter, it2: BfsIter, d: Dcel, invalid: seq<bool>, v: nat)
    requires Shaped(d, invalid) && Sized(it, |d.vertices|) && Sized(it2, |d.vertices|) && v < |d.vertices|
    requires Stepped(it, it2, d, invalid, v)
    ensures it2.queue == it.queue[1..] + it2.queue[|it.queue| - 1..]
    ensures forall w :: w in it.queue <==> w == v || w in it.queue[1..]
  {
    assert it2.queue == it2.queue[..|it.queue| - 1] + it2.queue[|it.queue| - 1..];
    assert it.queue == [v] + it.queue[1..];
  }

  lemma StepQueueDistinct(it: BfsIter, it2: BfsIter, d: Dcel, invalid: seq<bool>, v: nat)
    requires Shaped(d, invalid) && Sized(it, |d.vertices|) && Sized(it2, |d.vertices|) && v < |d.vertices|
    requires Stepped(it, it2, d, invalid, v) && QueueOk(it)
    ensures Distinct(it2.queue)
  {
    var m := |it.queue| - 1;
    var added := it2.queue[m..];
    forall i, j | 0 <= i < j < |it2.queue|
      ensures it2.queue[i] != it2.queue[j]
    {
      if j < m {
        assert it2.queue[..m][i] == it.queue[1..][i];
        assert it2.queue[..m][j] == it.queue[1..][j];
      } else if i >= m {
        assert it2.queue[i] == added[i - m] && it2.queue[j] == added[j - m];
      } else {
        assert Found(it, it2, d, invalid, v, d.vertices[v].arcs, it2.queue[j]);
        assert it2.queue[..m][i] == it.queue[1..][i];
      }
    }
  }

  lemma StepQueueMarks(it: BfsIter, it2: BfsIter, d: Dcel, invalid: seq<bool>, v: nat, k: nat)
    requires Shaped(d, invalid) && Sized(it, |d.vertices|) && Sized(it2, |d.vertices|) && v < |d.vertices|
    requires Stepped(it, it2, d, invalid, v) && QueueOk(it) && Seen(it, |d.vertices|) && k < |it2.queue|
    ensures it2.discovered[it2.queue[k]] && !it2.visited[it2.queue[k]]
  {
    var m := |it.queue| - 1;
    var w := it2.queue[k];
    if k < m {
      assert it2.queue[..m][k] == it.queue[1..][k];
      assert w == it.queue[k + 1] && it.discovered[w] && !it.visited[w];
      assert w != v by {
        assert it.queue[0] != it.queue[k + 1];
      }
      assert Kept(it, it2, w);
    } else {
      assert Found(it, it2, d, invalid, v, d.vertices[v].arcs, w);
      assert it.discovered[v];
      assert w in it2.queue[m..] by {
        assert it2.queue[m..][k - m] == w;
      }
    }
  }

  lemma StepQueueOk(it: BfsIter, it2: BfsIter, d: Dcel, invalid: seq<bool>, v: nat)
    requires Shaped(d, invalid) && Sized(it, |d.vertices|) && Sized(it2, |d.vertices|) && v < |d.vertices|
    requires Stepped(it, it2, d, invalid, v) && QueueOk(it) && Seen(it, |d.vertices|)
    ensures QueueOk(it2)
  {
    StepQueueDistinct(it, it2, d, invalid, v);
    forall k | 0 <= k < |it2.queue|
      ensures it2.discovered[it2.queue[k]] && !it2.visited[it2.queue[k]]
    {
      StepQueueMarks(it, it2, d, invalid, v, k);
    }
  }

  lemma StepSeen(it: BfsIter, it2: BfsIter, d: Dcel, invalid: seq<bool>, v: nat)
    requires Shaped(d, invalid) && Sized(it, |d.vertices|) && Sized(it2, |d.vertices|) && v < |d.vertices|
    requires Stepped(it, it2, d, invalid, v) && Seen(it, |d.vertices|)
    ensures Seen(it2, |d.vertices|)
  {
    SteppedQueue(it, it2, d, invalid, v);
  }

  lemma StepEmitted(it: BfsIter, it2: BfsIter, acc: seq<BfsItem>, item: BfsItem, d: Dcel, invalid: seq<bool>, v: nat)
    requires Shaped(d, invalid) && Sized(it, |d.vertices|) && Sized(it2, |d.vertices|) && v < |d.vertices|
    requires Stepped(it, it2, d, invalid, v) && Emitted(it, acc, |d.vertices|) && item.vertex == v
    ensures Emitted(it2, acc + [item], |d.vertices|)
  {
    assert Vertices(acc + [item]) == Vertices(acc) + [v];
  }

  lemma StepStable(it: BfsIter, it2: BfsIter, acc: seq<BfsItem>, d: Dcel, invalid: seq<bool>, v: nat)
    requires Shaped(d, invalid) && Sized(it, |d.vertices|) && Sized(it2, |d.vertices|) && v < |d.vertices|
    requires Stepped(it, it2, d, invalid, v) && QueueOk(it) && Seen(it, |d.vertices|)
    requires Emitted(it, acc, |d.vertices|) && Stable(it, acc, |d.vertices|)
    ensures Stable(it2, acc + [BfsItem(it.level[v], v, it.discoveredArc[v])], |d.vertices|)
  {
    var acc2 := acc + [BfsItem(it.level[v], v, it.discoveredArc[v])];
    forall i | 0 <= i < |acc2|
      ensures acc2[i].vertex < |d.vertices| && acc2[i].level == it2.level[acc2[i].vertex] &&
              acc2[i].arc == it2.discoveredArc[acc2[i].vertex]
    {
      var w := acc2[i].vertex;
      if i < |acc| {
        assert Vertices(acc)[i] == w;
        assert it.visited[w] && it.discovered[w];
      }
      assert Kept(it, it2, w);
    }
  }

  lemma StepOrigin(it: BfsIter, it2: BfsIter, d: Dcel, invalid: seq<bool>, start: nat, v: nat)
    requires Shaped(d, invalid) && Sized(it, |d.vertices|) && Sized(it2, |d.vertices|) && v < |d.vertices| && start < |d.vertices|
    requires Stepped(it, it2, d, invalid, v) && QueueOk(it) && Seen(it, |d.vertices|) && Origin(it, d, invalid, start)
    ensures Origin(it2, d, invalid, start)
  {
    SteppedQueue(it, it2, d, invalid, v);
    assert Kept(it, it2, start);
    assert it.discovered[v] && Kept(it, it2, v);
    forall w | 0 <= w < |d.vertices| && it2.discovered[w] && w != start
      ensures Tree(it2, d, invalid, w)
    {
      if it.discovered[w] {
        assert Tree(it, d, invalid, w);
        var a := it.discoveredArc[w].value;
        assert Kept(it, it2, w);
        assert Kept(it, it2, d.arcs[a].src);
      } else {
        var k :| |it.queue| - 1 <= k < |it2.queue| && it2.queue[k] == w;
        assert Found(it, it2, d, invalid, v, d.vertices[v].arcs, w);
        var a := it2.discoveredArc[w].value;
        var j :| 0 <= j < |d.vertices[v].arcs| && d.vertices[v].arcs[j] == a;
        assert d.arcs[a].src == v;
      }
    }
  }

  lemma StepFifo(it: BfsIter, it2: BfsIter, acc: seq<BfsItem>, d: Dcel, invalid: seq<bool>, v: nat)
    requires Shaped(d, invalid) && Sized(it, |d.vertices|) && Sized(it2, |d.vertices|) && v < |d.vertices|
    requires Stepped(it, it2, d, invalid, v) && QueueOk(it) && Fifo(it, acc, |d.vertices|)
    ensures Fifo(it2, acc + [BfsItem(it.level[v], v, it.discoveredArc[v])], |d.vertices|)
  {
    var m := |it.queue| - 1;
    var lv := it.level[v];
    assert it.discovered[v] && Kept(it, it2, v);
    forall k | 0 <= k < |it2.queue|
      ensures lv <= it2.level[it2.queue[k]] <= lv + 1
      ensures k >= m ==> it2.level[it2.queue[k]] == lv + 1
      ensures k < m ==> it2.level[it2.queue[k]] == it.level[it.queue[k + 1]]
    {
      if k < m {
        assert it2.queue[k] == it.queue[k + 1];
        assert Kept(it, it2, it.queue[k + 1]);
      } else {
        assert Found(it, it2, d, invalid, v, d.vertices[v].arcs, it2.queue[k]);
      }
    }
    var acc2 := acc + [BfsItem(lv, v, it.discoveredArc[v])];
    forall i, k | 0 <= i < |acc2| && 0 <= k < |it2.queue|
      ensures acc2[i].level <= it2.level[it2.queue[k]]
    {
      if i < |acc| {
        assert acc[i].level <= it.level[it.queue[0]];
      }
    }
  }

  lemma StepReached(it: BfsIter, it2: BfsIter, d: Dcel, invalid: seq<bool>, v: nat)
    requires Shaped(d, invalid) && Sized(it, |d.vertices|) && Sized(it2, |d.vertices|) && v < |d.vertices|
    requires Stepped(it, it2, d, invalid, v) && Reached(it, d, invalid)
    ensures Reached(it2, d, invalid)
  {
    forall u, k | 0 <= u < |d.vertices| && it2.visited[u] && 0 <= k < |d.vertices[u].arcs| && !invalid[d.vertices[u].arcs[k]]
      ensures it2.discovered[d.arcs[d.vertices[u].arcs[k]].dst]
    {
      if u != v {
        assert it.visited[u];
        assert it.discovered[d.arcs[d.vertices[u].arcs[k]].dst];
      }
    }
  }

  lemma StepOrder(it: BfsIter, acc: seq<BfsItem>, d: Dcel, invalid: seq<bool>, start: nat, v: nat)
    requires Shaped(d, invalid) && Sized(it, |d.vertices|) && start < |d.vertices| && it.queue != [] && v == it.queue[0]
    requires QueueOk(it) && Emitted(it, acc, |d.vertices|) && Stable(it, acc, |d.vertices|)
    requires Origin(it, d, invalid, start) && Fifo(it, acc, |d.vertices|)
    requires BfsOrder(acc, d, invalid, start) && (acc == [] ==> it.queue == [start])
    ensures BfsOrder(acc + [BfsItem(it.level[v], v, it.discoveredArc[v])], d, invalid, start)
  {
    var item := BfsItem(it.level[v], v, it.discoveredArc[v]);
    var acc2 := acc + [item];
    assert Vertices(acc2) == Vertices(acc) + [v];
    assert !it.visited[v];
    assert v !in Vertices(acc);
    forall i | 0 < i < |acc2|
      ensures Parented(acc2, d, invalid, i)
    {
      if i < |acc| {
        assert Parented(acc, d, invalid, i);
        var j :| 0 <= j < i && acc[j].vertex == d.arcs[acc[i].arc.value].src && acc[j].level + 1 == acc[i].level;
        assert acc2[j] == acc[j];
      } else {
        assert Vertices(acc)[0] == start;
        assert it.visited[start];
        assert Tree(it, d, invalid, v);
        var s := d.arcs[it.discoveredArc[v].value].src;
        assert s in Vertices(acc);
        var j :| 0 <= j < |acc| && Vertices(acc)[j] == s;
        assert acc2[j] == acc[j] && acc[j].level == it.level[s];
      }
    }
    forall i, j | 0 <= i < j < |acc2|
      ensures acc2[i].level <= acc2[j].level
    {
      if j == |acc| {
        assert acc[i].level <= it.level[it.queue[0]];
      }
    }
  }

  /** `next` keeps the invariant, with the yielded item appended. */
  lemma NextInv(it: BfsIter, acc: seq<BfsItem>, d: Dcel, invalid: seq<bool>, start: nat)
    requires Inv(it, acc, d, invalid, start) && it.queue != []
    ensures Next(it, d, invalid).0.Some?
    ensures Inv(Next(it, d, invalid).1, acc + [Next(it, d, invalid).0.value], d, invalid, start)
  {
    var v := it.queue[0];
    var it2 := Next(it, d, invalid).1;
    var item := Next(it, d, invalid).0.value;
    assert item == BfsItem(it.level[v], v, it.discoveredArc[v]);
    NextStepped(it, d, invalid);
    StepQueueOk(it, it2, d, invalid, v);
    StepSeen(it, it2, d, invalid, v);
    StepEmitted(it, it2, acc, item, d, invalid, v);
    StepStable(it, it2, acc, d, invalid, v);
    StepOrigin(it, it2, d, invalid, start, v);
    StepFifo(it, it2, acc, d, invalid, v);
    StepReached(it, it2, d, invalid, v);
    StepTight(it, it2, acc, d, invalid, v);
    StepOrder(it, acc, d, invalid, start, v);
  }

  lemma StepTight(it: BfsIter, it2: BfsIter, acc: seq<BfsItem>, d: Dcel, invalid: seq<bool>, v: nat)
    requires Shaped(d, invalid) && Sized(it, |d.vertices|) && Sized(it2, |d.vertices|) && v < |d.vertices|
    requires Stepped(it, it2, d, invalid, v) && QueueOk(it) && Seen(it, |d.vertices|) && Emitted(it, acc, |d.vertices|)
    requires Stable(it, acc, |d.vertices|) && Fifo(it, acc, |d.vertices|) && Reached(it, d, invalid) && Tight(it, d, invalid)
    ensures Tight(it2, d, invalid)
  {
    assert it.discovered[v] && Kept(it, it2, v);
    forall u, k | 0 <= u < |d.vertices| && it2.visited[u] && 0 <= k < |d.vertices[u].arcs| && !invalid[d.vertices[u].arcs[k]]
      ensures it2.level[d.arcs[d.vertices[u].arcs[k]].dst] <= it2.level[u] + 1
    {
      var w := d.arcs[d.vertices[u].arcs[k]].dst;
      if u != v {
        assert it.visited[u] && it.discovered[u];
        assert it.discovered[w];
        assert Kept(it, it2, u) && Kept(it, it2, w);
      } else if it.discovered[w] {
        assert Kept(it, it2, w);
        if it.visited[w] {
          var j :| 0 <= j < |acc| && Vertices(acc)[j] == w;
          assert acc[j].level <= it.level[it.queue[0]];
        } else {
          var q :| 0 <= q < |it.queue| && it.queue[q] == w;
          if q > 0 {
            assert it.level[it.queue[0]] <= it.level[it.queue[q]] <= it.level[it.queue[0]] + 1;
          }
        }
      } else {
        var q :| |it.queue| - 1 <= q < |it2.queue| && it2.queue[q] == w;
        assert it2.queue[|it.queue| - 1..][q - (|it.queue| - 1)] == w;
        assert Found(it, it2, d, invalid, v, d.vertices[v].arcs, w);
      }
    }
  }

  // ---------------------------------------------------------------------
  // The whole search

  /** The search starts in a state that satisfies the invariant. */
  lemma InitInv(d: Dcel, invalid: seq<bool>, start: nat, it: BfsIter)
    requires Shaped(d, invalid) && start < |d.vertices| && it == New(d, start)
    ensures Inv(it, [], d, invalid, start)
  {
    assert Vertices([]) == [];
    forall v | 0 <= v < |d.vertices|
      ensures it.discovered[v] <==> it.visited[v] || v in it.queue
    {
      assert v in it.queue <==> v == start;
    }
  }

  /** Every valid arc of a yielded vertex ends at a yielded vertex at most
      one level further: the levels are the hop distances from `start`. */
  ghost predicate Covers(items: seq<BfsItem>, d: Dcel, invalid: seq<bool>)
    requires Shaped(d, invalid) && forall i :: 0 <= i < |items| ==> items[i].vertex < |d.vertices|
  {
    forall i, k {:trigger d.vertices[items[i].vertex].arcs[k]} ::
      0 <= i < |items| && 0 <= k < |d.vertices[items[i].vertex].arcs| && !invalid[d.vertices[items[i].vertex].arcs[k]] ==>
      exists j :: 0 <= j < |items| && items[j].vertex == d.arcs[d.vertices[items[i].vertex].arcs[k]].dst &&
                  items[j].level <= items[i].level + 1
  }

  /** Once the queue is empty, the yielded items cover every valid arc. */
  lemma DoneCovers(it: BfsIter, acc: seq<BfsItem>, d: Dcel, invalid: seq<bool>, start: nat)
    requires Inv(it, acc, d, invalid, start) && it.queue == []
    ensures Covers(acc, d, invalid)
  {
    forall i, k | 0 <= i < |acc| && 0 <= k < |d.vertices[acc[i].vertex].arcs| && !invalid[d.vertices[acc[i].vertex].arcs[k]]
      ensures exists j :: 0 <= j < |acc| && acc[j].vertex == d.arcs[d.vertices[acc[i].vertex].arcs[k]].dst &&
                          acc[j].level <= acc[i].level + 1
    {
      var u := acc[i].vertex;
      var w := d.arcs[d.vertices[u].arcs[k]].dst;
      assert Vertices(acc)[i] == u;
      assert it.visited[u];
      assert it.discovered[w];
      assert w in Vertices(acc);
      var j :| 0 <= j < |acc| && Vertices(acc)[j] == w;
      assert acc[j].vertex == w && acc[j].level <= acc[i].level + 1;
    }
  }

  /** At most one item per vertex has been yielded. */
  lemma InvBound(it: BfsIter, acc: seq<BfsItem>, d: Dcel, invalid: seq<bool>, start: nat)
    requires Inv(it, acc, d, invalid, start)
    ensures |acc| <= |d.vertices|
  {
    DistinctBelow(Vertices(acc), |d.vertices|);
  }

  lemma PrefixShrink<T>(acc: seq<T>, x: T, r: seq<T>)
    requires |acc| + 1 <= |r| && r[..|acc| + 1] == acc + [x]
    ensures |acc| <= |r| && r[..|acc|] == acc
  {
    assert r[..|acc|] == r[..|acc| + 1][..|acc|];
  }

  lemma DrainDone(it: BfsIter, acc: seq<BfsItem>, d: Dcel, invalid: seq<bool>, start: nat, fuel: nat)
    requires Inv(it, acc, d, invalid, start) && fuel > 0 && it.queue == []
    ensures DrainFrom(it, acc, d, invalid, fuel) == Some(acc)
  {
  }

  lemma DrainStep(it: BfsIter, acc: seq<BfsItem>, d: Dcel, invalid: seq<bool>, start: nat, fuel: nat)
    requires Inv(it, acc, d, invalid, start) && fuel > 0 && it.queue != []
    ensures DrainFrom(it, acc, d, invalid, fuel) ==
      DrainFrom(Next(it, d, invalid).1, acc + [Next(it, d, invalid).0.value], d, invalid, fuel - 1)
  {
  }

  /** Draining from an invariant state with fuel for every vertex not yet
      yielded succeeds, extends what was yielded, and ends in a BFS order
      that covers every valid arc. */
  lemma {:induction false} DrainFromOrder(it: BfsIter, acc: seq<BfsItem>, d: Dcel, invalid: seq<bool>, start: nat, fuel: nat)
      returns (r: seq<BfsItem>)
    requires Inv(it, acc, d, invalid, start) && |d.vertices| < fuel + |acc|
    ensures DrainFrom(it, acc, d, invalid, fuel) == Some(r)
    ensures |acc| <= |r| && r[..|acc|] == acc && r != []
    ensures BfsOrder(r, d, invalid, start) && Covers(r, d, invalid)
    decreases fuel
  {
    InvBound(it, acc, d, invalid, start);
    if it.queue == [] {
      DrainDone(it, acc, d, invalid, start, fuel);
      DoneCovers(it, acc, d, invalid, start);
      r := acc;
    } else {
      NextInv(it, acc, d, invalid, start);
      DrainStep(it, acc, d, invalid, start, fuel);
      var x := Next(it, d, invalid).0.value;
      r := DrainFromOrder(Next(it, d, invalid).1, acc + [x], d, invalid, start, fuel - 1);
      PrefixShrink(acc, x, r);
    }
  }

  /** The search from `start` yields a BFS order: `start` first, each later
      vertex once, reached by a valid arc from an earlier vertex one level
      up, levels never decreasing, and every valid arc of a yielded vertex
      leading to a yielded vertex at most one level further. */
  lemma DrainOrder(d: Dcel, invalid: seq<bool>, start: nat) returns (items: seq<BfsItem>)
    requires Shaped(d, invalid) && start < |d.vertices|
    ensures Drain(d, invalid, start) == Some(items) && items != []
    ensures BfsOrder(items, d, invalid, start) && Covers(items, d, invalid)
  {
    var it := New(d, start);
    InitInv(d, invalid, start, it);
    items := DrainFromOrder(it, [], d, invalid, start, |d.vertices| + 1);
    DrainIs(d, invalid, start, it, items);
  }

  lemma DrainIs(d: Dcel, invalid: seq<bool>, start: nat, it: BfsIter, items: seq<BfsItem>)
    requires Shaped(d, invalid) && start < |d.vertices| && it == New(d, start)
    requires DrainFrom(it, [], d, invalid, |d.vertices| + 1) == Some(items)
    ensures Drain(d, invalid, start) == Some(items)
  {
  }
}
