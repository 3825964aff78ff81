/** `QuickGraph`: an undirected graph on the vertices `0..n-1` kept as one
    neighbour list per vertex, with a separately maintained edge counter.
    The kernelisation reductions edit it in place. */
module QuickGraphs {
  import opened SetSeqs
  import opened ReductionUtils
  import opened Wrappers

  datatype QuickGraph = QuickGraph(adjacency: seq<seq<nat>>, edgeCount: nat)

  /** The total length of all neighbour lists: twice the number of edges
      of a well-formed graph. */
  function SumLen(adj: seq<seq<nat>>): nat
  {
    if adj == [] then 0 else SumLen(adj[..|adj| - 1]) + |adj[|adj| - 1]|
  }

  /** Every listed neighbour is a vertex. */
  predicate Bounded(adj: seq<seq<nat>>) {
    forall w, k :: 0 <= w < |adj| && 0 <= k < |adj[w]| ==> adj[w][k] < |adj|
  }

  /** No self-loops and no vertex listed twice. */
  predicate Simple(adj: seq<seq<nat>>) {
    forall w :: 0 <= w < |adj| ==> w !in adj[w] && Distinct(adj[w])
  }

  /** Every edge is listed at both of its ends. */
  predicate Symmetric(adj: seq<seq<nat>>) {
    forall a, b :: 0 <= a < |adj| && 0 <= b < |adj| && b in adj[a] ==> a in adj[b]
  }

  /** A simple undirected graph whose counter is its number of edges. */
  predicate Valid(g: QuickGraph) {
    Bounded(g.adjacency) && Simple(g.adjacency) && Symmetric(g.adjacency) &&
    2 * g.edgeCount == SumLen(g.adjacency)
  }

  // ---------------------------------------------------------------------
  // Neighbour-list helpers

  /** `retain(|x| x != v)`: the list without any occurrence of `v`, in order. */
  function Without(xs: seq<nat>, v: nat): (r: seq<nat>)
    ensures forall y :: y in r <==> y in xs && y != v
    ensures |r| <= |xs|
    ensures v !in xs ==> r == xs
  {
    if xs == [] then []
    else (if xs[0] == v then [] else [xs[0]]) + Without(xs[1..], v)
  }

  /** Filtering keeps a list duplicate-free and, when the element occurs,
      shortens it by exactly one. */
  lemma {:induction false} WithoutDistinct(xs: seq<nat>, v: nat)
    requires Distinct(xs)
    ensures Distinct(Without(xs, v))
    ensures v in xs ==> |Without(xs, v)| + 1 == |xs|
  {
    if xs != [] {
      var rest := Without(xs[1..], v);
      WithoutDistinct(xs[1..], v);
      assert xs[0] !in xs[1..];
      assert xs[0] !in rest;
      var r := Without(xs, v);
      if xs[0] != v {
        assert r == [xs[0]] + rest;
        forall i, j | 0 <= i < j < |r|
          ensures r[i] != r[j]
        {
          if i > 0 {
            assert r[i] == rest[i - 1] && r[j] == rest[j - 1];
          } else {
            assert r[j] == rest[j - 1];
          }
        }
      } else {
        assert r == rest;
        assert v !in xs[1..];
      }
    }
  }

  /** The list of a vertex after vertex `u` is deleted: `u` is dropped and
      the indices above it move down. */
  function Renumber(xs: seq<nat>, u: nat): (r: seq<nat>)
  {
    DecreaseVertices(Without(xs, u), u)
  }

  /** A renumbered list holds `y` exactly when the old list held the old
      index of `y`. */
  lemma RenumberHas(xs: seq<nat>, u: nat, y: nat)
    ensures y in Renumber(xs, u) <==> Unshift(y, u) in xs
  {
    var w := Without(xs, u);
    var r := Renumber(xs, u);
    if y in r {
      var k :| 0 <= k < |r| && r[k] == y;
      assert w[k] in xs && w[k] != u;
    }
    if Unshift(y, u) in xs {
      assert Unshift(y, u) in w;
      var k :| 0 <= k < |w| && w[k] == Unshift(y, u);
      assert r[k] == y;
    }
  }

  lemma RenumberDistinct(xs: seq<nat>, u: nat)
    requires Distinct(xs)
    ensures Distinct(Renumber(xs, u))
    ensures |Renumber(xs, u)| == |Without(xs, u)|
  {
    WithoutDistinct(xs, u);
    var w := Without(xs, u);
    var r := Renumber(xs, u);
    forall i, j | 0 <= i < j < |r|
      ensures r[i] != r[j]
    {
      assert w[i] != u && w[j] != u && w[i] != w[j];
    }
  }

  // ---------------------------------------------------------------------
  // Sums of list lengths

  lemma {:induction false} SumLenConcat(a: seq<seq<nat>>, b: seq<seq<nat>>)
    ensures SumLen(a + b) == SumLen(a) + SumLen(b)
    decreases |b|
  {
    if b != [] {
      var b' := b[..|b| - 1];
      assert (a + b)[..|a + b| - 1] == a + b';
      SumLenConcat(a, b');
    } else {
      assert a + b == a;
    }
  }

  lemma {:induction false} SumLenSame(a: seq<seq<nat>>, b: seq<seq<nat>>)
    requires |a| == |b|
    requires forall i :: 0 <= i < |a| ==> |a[i]| == |b[i]|
    ensures SumLen(a) == SumLen(b)
    decreases |a|
  {
    if a != [] {
      SumLenSame(a[..|a| - 1], b[..|b| - 1]);
    }
  }

  lemma {:induction false} SumLenUpdate(a: seq<seq<nat>>, i: nat, x: seq<nat>)
    requires i < |a|
    ensures SumLen(a[i := x]) + |a[i]| == SumLen(a) + |x|
  {
    SumLenConcat(a[..i] + [a[i]], a[i + 1..]);
    SumLenConcat(a[..i], [a[i]]);
    SumLenConcat(a[..i] + [x], a[i + 1..]);
    SumLenConcat(a[..i], [x]);
    assert a == a[..i] + [a[i]] + a[i + 1..];
    assert a[i := x] == a[..i] + [x] + a[i + 1..];
    SumLenOne(a[i]);
    SumLenOne(x);
  }

  lemma SumLenOne(x: seq<nat>)
    ensures SumLen([x]) == |x|
  {
    var one: seq<seq<nat>> := [x];
    assert one[..0] == [];
  }

  lemma SumLenRemove(a: seq<seq<nat>>, i: nat)
    requires i < |a|
    ensures SumLen(a[..i] + a[i + 1..]) + |a[i]| == SumLen(a)
  {
    SumLenConcat(a[..i] + [a[i]], a[i + 1..]);
    SumLenConcat(a[..i], [a[i]]);
    SumLenConcat(a[..i], a[i + 1..]);
    assert a == a[..i] + [a[i]] + a[i + 1..];
    SumLenOne(a[i]);
  }

  lemma {:induction false} SumLenZero(a: seq<seq<nat>>)
    requires forall i :: 0 <= i < |a| ==> a[i] == []
    ensures SumLen(a) == 0
    decreases |a|
  {
    if a != [] {
      SumLenZero(a[..|a| - 1]);
    }
  }

  /** How many lists hold `u`. */
  function Holding(adj: seq<seq<nat>>, u: nat): nat
  {
    if adj == [] then 0 else Holding(adj[..|adj| - 1], u) + (if u in adj[|adj| - 1] then 1 else 0)
  }

  /** Dropping one occurrence of `u` from every list that holds it shortens
      the total by the number of such lists. */
  lemma {:induction false} SumLenDrop(a: seq<seq<nat>>, b: seq<seq<nat>>, u: nat)
    requires |a| == |b|
    requires forall i :: 0 <= i < |a| ==> |b[i]| + (if u in a[i] then 1 else 0) == |a[i]|
    ensures SumLen(b) + Holding(a, u) == SumLen(a)
    decreases |a|
  {
    if a != [] {
      SumLenDrop(a[..|a| - 1], b[..|b| - 1], u);
    }
  }

  lemma {:induction false} HoldingCard(adj: seq<seq<nat>>, u: nat)
    ensures Holding(adj, u) == |set w | 0 <= w < |adj| && u in adj[w]|
    decreases |adj|
  {
    if adj != [] {
      var p := adj[..|adj| - 1];
      HoldingCard(p, u);
      var sp := set w | 0 <= w < |p| && u in p[w];
      var s := set w | 0 <= w < |adj| && u in adj[w];
      if u in adj[|adj| - 1] {
        assert s == sp + {|adj| - 1};
      } else {
        assert s == sp;
      }
    }
  }

  /** In a symmetric graph exactly `degree(u)` lists hold `u`. */
  lemma HoldingDegree(adj: seq<seq<nat>>, u: nat)
    requires Bounded(adj) && Symmetric(adj) && u < |adj| && Distinct(adj[u])
    ensures Holding(adj, u) == |adj[u]|
  {
    HoldingCard(adj, u);
    DistinctCard(adj[u]);
    var s := set w | 0 <= w < |adj| && u in adj[w];
    assert s == Set(adj[u]);
  }

  /** Every list with `u` filtered out. */
  function Dropped(adj: seq<seq<nat>>, u: nat): (a: seq<seq<nat>>)
    ensures |a| == |adj|
    ensures forall w :: 0 <= w < |adj| ==> a[w] == Without(adj[w], u)
  {
    seq(|adj|, w requires 0 <= w < |adj| => Without(adj[w], u))
  }

  lemma DroppedSum(adj: seq<seq<nat>>, u: nat, a: seq<seq<nat>>)
    requires a == Dropped(adj, u)
    requires forall w :: 0 <= w < |adj| ==> Distinct(adj[w])
    ensures SumLen(a) + Holding(adj, u) == SumLen(adj)
  {
    forall i | 0 <= i < |a|
      ensures |a[i]| + (if u in adj[i] then 1 else 0) == |adj[i]|
    {
      WithoutDistinct(adj[i], u);
    }
    SumLenDrop(adj, a, u);
  }

  /** The lists of a valid graph with `u` filtered out, and `u`'s own list
      removed, total twice the edges not at `u`. */
  lemma DropVertexSum(g: QuickGraph, u: nat, a: seq<seq<nat>>)
    requires Valid(g) && u < |g.adjacency|
    requires a == Dropped(g.adjacency, u)
    ensures SumLen(a[..u] + a[u + 1..]) + 2 * |g.adjacency[u]| == 2 * g.edgeCount
  {
    var adj := g.adjacency;
    DroppedSum(adj, u, a);
    HoldingDegree(adj, u);
    SumLenRemove(a, u);
    assert a[u] == adj[u];
  }

  /** A vertex of a valid graph has at most as many neighbours as the graph
      has edges, so `remove_vertex` never underflows the counter. */
  lemma ValidDegree(g: QuickGraph, u: nat)
    requires Valid(g) && u < |g.adjacency|
    ensures |g.adjacency[u]| <= g.edgeCount
  {
    DropVertexSum(g, u, Dropped(g.adjacency, u));
  }

  // ---------------------------------------------------------------------
  // Construction and accessors

  /** `QuickGraph::new(n)`: `n` isolated vertices and no edges. */
  function New(n: nat): (g: QuickGraph)
    ensures |g.adjacency| == n && g.edgeCount == 0
    ensures forall v :: 0 <= v < n ==> g.adjacency[v] == []
    ensures Valid(g)
  {
    var g := QuickGraph(seq(n, _ => []), 0);
    SumLenZero(g.adjacency);
    g
  }

  /** `num_vertices`: on a valid graph every listed neighbour is a vertex
      number below it. */
  function NumVertices(g: QuickGraph): (r: nat)
    ensures Valid(g) ==>
              forall w, k :: 0 <= w < |g.adjacency| && 0 <= k < |g.adjacency[w]| ==> g.adjacency[w][k] < r
  {
    |g.adjacency|
  }

  /** `num_edges`: on a valid graph it is half the total list length and
      bounds every vertex's degree. */
  function NumEdges(g: QuickGraph): (r: nat)
    ensures Valid(g) ==> 2 * r == SumLen(g.adjacency)
    ensures Valid(g) ==> forall v :: 0 <= v < |g.adjacency| ==> |g.adjacency[v]| <= r
  {
    if Valid(g) then
      assert forall v :: 0 <= v < |g.adjacency| ==> |g.adjacency[v]| <= g.edgeCount by {
        forall v | 0 <= v < |g.adjacency| {
          ValidDegree(g, v);
        }
      }
      g.edgeCount
    else g.edgeCount
  }

  /** `degree`: on a valid graph the number of distinct neighbours, at
      most the number of edges. */
  function Degree(g: QuickGraph, v: nat): (r: nat)
    requires v < |g.adjacency|
    ensures Valid(g) ==> r == |Set(g.adjacency[v])| && r <= g.edgeCount
  {
    if Valid(g) then
      DistinctCard(g.adjacency[v]);
      ValidDegree(g, v);
      |g.adjacency[v]|
    else |g.adjacency[v]|
  }

  /** `neighborhood`: on a valid graph a list of distinct other vertices,
      each of which lists `v` back. */
  function Neighborhood(g: QuickGraph, v: nat): (r: seq<nat>)
    requires v < |g.adjacency|
    ensures Valid(g) ==> Distinct(r) && v !in r
    ensures Valid(g) ==> forall k :: 0 <= k < |r| ==> r[k] < |g.adjacency| && v in g.adjacency[r[k]]
  {
    g.adjacency[v]
  }

  /** `are_adjacent(u, v)`: `v` is in `u`'s list; on a valid graph this
      does not depend on the direction asked and never holds for `u == v`. */
  function AreAdjacent(g: QuickGraph, u: nat, v: nat): (r: bool)
    requires u < |g.adjacency|
    ensures Valid(g) && v < |g.adjacency| ==> (r <==> u in g.adjacency[v])
    ensures Valid(g) && r ==> u != v && v < |g.adjacency|
  {
    v in g.adjacency[u]
  }

  /** `add_vertex`: one more isolated vertex. */
  function AddVertex(g: QuickGraph): (r: QuickGraph)
    ensures |r.adjacency| == |g.adjacency| + 1 && r.adjacency[|g.adjacency|] == []
    ensures r.adjacency[..|g.adjacency|] == g.adjacency && r.edgeCount == g.edgeCount
  {
    QuickGraph(g.adjacency + [[]], g.edgeCount)
  }

  lemma AddVertexValid(g: QuickGraph)
    requires Valid(g)
    ensures Valid(AddVertex(g))
  {
    SumLenConcat(g.adjacency, [[]]);
    SumLenOne([]);
  }

  // ---------------------------------------------------------------------
  // Edges

  /** `add_edge(u, v)`: a no-op on an adjacent pair; otherwise each end is
      appended to the other's list and one more edge is counted. */
  function AddEdge(g: QuickGraph, u: nat, v: nat): (r: QuickGraph)
    requires u < |g.adjacency| && v < |g.adjacency|
    ensures |r.adjacency| == |g.adjacency|
    ensures AreAdjacent(g, u, v) ==> r == g
    ensures !AreAdjacent(g, u, v) ==> r.edgeCount == g.edgeCount + 1
    ensures !AreAdjacent(g, u, v) && u != v ==>
              r.adjacency[u] == g.adjacency[u] + [v] && r.adjacency[v] == g.adjacency[v] + [u]
    ensures forall w :: 0 <= w < |g.adjacency| && w != u && w != v ==> r.adjacency[w] == g.adjacency[w]
    ensures AreAdjacent(r, u, v)
    ensures !AreAdjacent(g, u, v) ==> AreAdjacent(r, v, u)
  {
    if AreAdjacent(g, u, v) then g
    else
      var a1 := g.adjacency[u := g.adjacency[u] + [v]];
      var a2 := a1[v := a1[v] + [u]];
      QuickGraph(a2, g.edgeCount + 1)
  }

  /** Adding an edge twice is adding it once. */
  lemma AddEdgeIdempotent(g: QuickGraph, u: nat, v: nat)
    requires u < |g.adjacency| && v < |g.adjacency|
    ensures AddEdge(AddEdge(g, u, v), u, v) == AddEdge(g, u, v)
  {
  }

  lemma DistinctAppend(xs: seq<nat>, x: nat)
    requires Distinct(xs) && x !in xs
    ensures Distinct(xs + [x])
  {
    var ys := xs + [x];
    forall i, j | 0 <= i < j < |ys|
      ensures ys[i] != ys[j]
    {
      assert ys[i] == xs[i];
    }
  }

  lemma AddEdgeLists(g: QuickGraph, u: nat, v: nat, r: QuickGraph)
    requires u < |g.adjacency| && v < |g.adjacency| && u != v
    requires !AreAdjacent(g, u, v) && r == AddEdge(g, u, v)
    ensures r.adjacency == g.adjacency[u := g.adjacency[u] + [v]][v := g.adjacency[v] + [u]]
  {
  }

  lemma AddEdgeSum(g: QuickGraph, u: nat, v: nat, r: QuickGraph)
    requires u < |g.adjacency| && v < |g.adjacency| && u != v
    requires !AreAdjacent(g, u, v) && r == AddEdge(g, u, v)
    requires 2 * g.edgeCount == SumLen(g.adjacency)
    ensures 2 * r.edgeCount == SumLen(r.adjacency)
  {
    var adj := g.adjacency;
    var a1 := adj[u := adj[u] + [v]];
    AddEdgeLists(g, u, v, r);
    SumLenUpdate(adj, u, adj[u] + [v]);
    SumLenUpdate(a1, v, adj[v] + [u]);
  }

  lemma AddEdgeShape(g: QuickGraph, u: nat, v: nat, r: QuickGraph)
    requires u < |g.adjacency| && v < |g.adjacency| && u != v
    requires !AreAdjacent(g, u, v) && r == AddEdge(g, u, v)
    requires Bounded(g.adjacency) && Simple(g.adjacency) && Symmetric(g.adjacency)
    ensures Bounded(r.adjacency)
    ensures Simple(r.adjacency)
  {
    var adj := g.adjacency;
    assert u !in adj[v];
    DistinctAppend(adj[u], v);
    DistinctAppend(adj[v], u);
    forall w, k | 0 <= w < |adj| && 0 <= k < |r.adjacency[w]|
      ensures r.adjacency[w][k] < |adj|
    {
      if w == u && k < |adj[u]| {
        assert r.adjacency[w][k] == adj[u][k];
      } else if w == v && k < |adj[v]| {
        assert r.adjacency[w][k] == adj[v][k];
      }
    }
  }

  lemma AddEdgeSym(g: QuickGraph, u: nat, v: nat, r: QuickGraph)
    requires u < |g.adjacency| && v < |g.adjacency| && u != v
    requires !AreAdjacent(g, u, v) && r == AddEdge(g, u, v)
    requires Symmetric(g.adjacency)
    ensures Symmetric(r.adjacency)
  {
    var adj := g.adjacency;
    forall a, b | 0 <= a < |adj| && 0 <= b < |adj| && b in r.adjacency[a]
      ensures a in r.adjacency[b]
    {
      if a == u && b == v {
      } else if a == v && b == u {
      } else {
        assert b in adj[a];
      }
    }
  }

  /** Adding an edge between two distinct vertices keeps the graph valid. */
  lemma AddEdgeValid(g: QuickGraph, u: nat, v: nat)
    requires Valid(g) && u < |g.adjacency| && v < |g.adjacency| && u != v
    ensures Valid(AddEdge(g, u, v))
  {
    if !AreAdjacent(g, u, v) {
      var r := AddEdge(g, u, v);
      AddEdgeSum(g, u, v, r);
      AddEdgeShape(g, u, v, r);
      AddEdgeSym(g, u, v, r);
    }
  }

  /** `remove_edge(u, v)`: a no-op unless adjacent; otherwise both
      directions are filtered out and one edge fewer is counted. */
  function RemoveEdge(g: QuickGraph, u: nat, v: nat): (r: QuickGraph)
    requires u < |g.adjacency| && v < |g.adjacency|
    requires AreAdjacent(g, u, v) ==> g.edgeCount > 0
    ensures |r.adjacency| == |g.adjacency|
    ensures !AreAdjacent(g, u, v) ==> r == g
    ensures AreAdjacent(g, u, v) ==> r.edgeCount + 1 == g.edgeCount
    ensures !AreAdjacent(r, u, v)
    ensures AreAdjacent(g, u, v) ==> !AreAdjacent(r, v, u)
    ensures forall w :: 0 <= w < |g.adjacency| && w != u && w != v ==> r.adjacency[w] == g.adjacency[w]
  {
    if !AreAdjacent(g, u, v) then g
    else
      var a1 := g.adjacency[u := Without(g.adjacency[u], v)];
      var a2 := a1[v := Without(a1[v], u)];
      QuickGraph(a2, g.edgeCount - 1)
  }

  lemma RemoveEdgeLists(g: QuickGraph, u: nat, v: nat, r: QuickGraph)
    requires u < |g.adjacency| && v < |g.adjacency| && u != v
    requires AreAdjacent(g, u, v) && g.edgeCount > 0 && r == RemoveEdge(g, u, v)
    ensures r.adjacency == g.adjacency[u := Without(g.adjacency[u], v)][v := Without(g.adjacency[v], u)]
  {
  }

  lemma RemoveEdgeSum(g: QuickGraph, u: nat, v: nat, r: QuickGraph)
    requires u < |g.adjacency| && v < |g.adjacency| && u != v
    requires AreAdjacent(g, u, v) && g.edgeCount > 0 && r == RemoveEdge(g, u, v)
    requires 2 * g.edgeCount == SumLen(g.adjacency)
    requires Distinct(g.adjacency[u]) && Distinct(g.adjacency[v]) && u in g.adjacency[v]
    ensures 2 * r.edgeCount == SumLen(r.adjacency)
  {
    var adj := g.adjacency;
    var a1 := adj[u := Without(adj[u], v)];
    RemoveEdgeLists(g, u, v, r);
    WithoutDistinct(adj[u], v);
    WithoutDistinct(adj[v], u);
    SumLenUpdate(adj, u, Without(adj[u], v));
    SumLenUpdate(a1, v, Without(adj[v], u));
  }

  lemma RemoveEdgeShape(g: QuickGraph, u: nat, v: nat, r: QuickGraph)
    requires u < |g.adjacency| && v < |g.adjacency| && u != v
    requires AreAdjacent(g, u, v) && g.edgeCount > 0 && r == RemoveEdge(g, u, v)
    requires Bounded(g.adjacency) && Simple(g.adjacency)
    ensures Bounded(r.adjacency)
    ensures Simple(r.adjacency)
  {
    var adj := g.adjacency;
    RemoveEdgeLists(g, u, v, r);
    WithoutDistinct(adj[u], v);
    WithoutDistinct(adj[v], u);
    forall w, k | 0 <= w < |adj| && 0 <= k < |r.adjacency[w]|
      ensures r.adjacency[w][k] < |adj|
    {
      assert r.adjacency[w][k] in adj[w];
    }
  }

  lemma RemoveEdgeSym(g: QuickGraph, u: nat, v: nat, r: QuickGraph)
    requires u < |g.adjacency| && v < |g.adjacency| && u != v
    requires AreAdjacent(g, u, v) && g.edgeCount > 0 && r == RemoveEdge(g, u, v)
    requires Symmetric(g.adjacency)
    ensures Symmetric(r.adjacency)
  {
    var adj := g.adjacency;
    RemoveEdgeLists(g, u, v, r);
    forall a, b | 0 <= a < |adj| && 0 <= b < |adj| && b in r.adjacency[a]
      ensures a in r.adjacency[b]
    {
      assert b in adj[a];
    }
  }

  /** Removing an edge keeps the graph valid, and a valid graph counts at
      least the edge being removed. */
  lemma RemoveEdgeValid(g: QuickGraph, u: nat, v: nat)
    requires Valid(g) && u < |g.adjacency| && v < |g.adjacency|
    ensures AreAdjacent(g, u, v) ==> g.edgeCount > 0
    ensures Valid(RemoveEdge(g, u, v))
  {
    if AreAdjacent(g, u, v) {
      ValidDegree(g, u);
      assert u != v && u in g.adjacency[v];
      var r := RemoveEdge(g, u, v);
      RemoveEdgeSum(g, u, v, r);
      RemoveEdgeShape(g, u, v, r);
      RemoveEdgeSym(g, u, v, r);
    }
  }

  lemma {:induction false} WithoutAppend(xs: seq<nat>, x: nat, v: nat)
    ensures Without(xs + [x], v) == Without(xs, v) + (if x == v then [] else [x])
    decreases |xs|
  {
    if xs == [] {
      assert [x][1..] == [];
    } else {
      assert (xs + [x])[1..] == xs[1..] + [x];
      WithoutAppend(xs[1..], x, v);
    }
  }

  /** Removing an edge that was just added restores the graph exactly. */
  lemma RemoveAddedEdge(g: QuickGraph, u: nat, v: nat)
    requires Valid(g) && u < |g.adjacency| && v < |g.adjacency|
    requires !AreAdjacent(g, u, v)
    ensures RemoveEdge(AddEdge(g, u, v), u, v) == g
  {
    var adj := g.adjacency;
    var r1 := AddEdge(g, u, v);
    if u != v {
      assert u !in adj[v];
      AddEdgeLists(g, u, v, r1);
      var r2 := RemoveEdge(r1, u, v);
      RemoveEdgeLists(r1, u, v, r2);
      WithoutAppend(adj[u], v, v);
      WithoutAppend(adj[v], u, u);
      assert Without(adj[u] + [v], v) == adj[u];
      assert Without(adj[v] + [u], u) == adj[v];
      forall i | 0 <= i < |adj|
        ensures r2.adjacency[i] == adj[i]
      {
      }
      assert r2.adjacency == adj;
    } else {
      RemoveAddedLoop(g, u);
    }
  }

  /** The loop case of the round trip: `add_edge(u, u)` appends `u` twice to
      its own list and `remove_edge(u, u)` filters both copies out. */
  lemma RemoveAddedLoop(g: QuickGraph, u: nat)
    requires u < |g.adjacency| && !AreAdjacent(g, u, u)
    ensures RemoveEdge(AddEdge(g, u, u), u, u) == g
  {
    var adj := g.adjacency;
    var r1 := AddEdge(g, u, u);
    assert r1.adjacency == adj[u := adj[u] + [u] + [u]];
    var r2 := RemoveEdge(r1, u, u);
    WithoutAppend(adj[u] + [u], u, u);
    WithoutAppend(adj[u], u, u);
    assert Without(adj[u] + [u] + [u], u) == adj[u];
    assert r2.adjacency == adj[u := adj[u]];
  }

  // ---------------------------------------------------------------------
  // Vertex removal

  /** `remove_vertex(u)` as written: the counter drops by `degree(u)`, `u`'s
      list is deleted and every list entry above `u` moves down, but entries
      equal to `u` in the other lists are left in place. */
  function RemoveVertexAsWritten(g: QuickGraph, u: nat): (r: QuickGraph)
    requires u < |g.adjacency| && |g.adjacency[u]| <= g.edgeCount
    ensures |r.adjacency| + 1 == |g.adjacency|
    ensures r.edgeCount + |g.adjacency[u]| == g.edgeCount
  {
    var n := |g.adjacency|;
    QuickGraph(seq(n - 1, i requires 0 <= i < n - 1 => DecreaseVertices(g.adjacency[Unshift(i, u)], u)),
               g.edgeCount - |g.adjacency[u]|)
  }

  /** The single edge {0, 1}: removing vertex 0 as written leaves vertex 1
      (now 0) listing itself, with the counter at 0 but one list entry. */
  lemma RemoveVertexAsWrittenBreaks()
    ensures Valid(QuickGraph([[1], [0]], 1))
    ensures RemoveVertexAsWritten(QuickGraph([[1], [0]], 1), 0) == QuickGraph([[0]], 0)
    ensures !Valid(QuickGraph([[0]], 0))
  {
    var g := QuickGraph([[1], [0]], 1);
    assert SumLen([[1], [0]][..1]) == 1;
    assert SumLen([[0]][..0]) == 0;
    assert 0 in g.adjacency[1];
    var r := RemoveVertexAsWritten(g, 0);
    assert DecreaseVertices([0], 0) == [0];
    assert r.adjacency == [DecreaseVertices([0], 0)];
  }

  /** `remove_vertex(u)` as evidently intended: `u` also leaves every other
      list before the entries above it move down. */
  function RemoveVertex(g: QuickGraph, u: nat): (r: QuickGraph)
    requires u < |g.adjacency| && |g.adjacency[u]| <= g.edgeCount
    ensures |r.adjacency| + 1 == |g.adjacency|
    ensures r.edgeCount + |g.adjacency[u]| == g.edgeCount
  {
    var n := |g.adjacency|;
    QuickGraph(seq(n - 1, i requires 0 <= i < n - 1 => Renumber(g.adjacency[Unshift(i, u)], u)),
               g.edgeCount - |g.adjacency[u]|)
  }

  /** After removing `u`, vertices `a` and `b` are adjacent exactly when
      their old indices were. */
  lemma RemoveVertexAdjacent(g: QuickGraph, u: nat, a: nat, b: nat)
    requires u < |g.adjacency| && |g.adjacency[u]| <= g.edgeCount
    requires a + 1 < |g.adjacency|
    ensures AreAdjacent(RemoveVertex(g, u), a, b) <==> AreAdjacent(g, Unshift(a, u), Unshift(b, u))
  {
    RenumberHas(g.adjacency[Unshift(a, u)], u, b);
  }

  lemma RemoveVertexSum(g: QuickGraph, u: nat, r: QuickGraph)
    requires Valid(g) && u < |g.adjacency| && |g.adjacency[u]| <= g.edgeCount
    requires r == RemoveVertex(g, u)
    ensures 2 * r.edgeCount == SumLen(r.adjacency)
  {
    var adj := g.adjacency;
    var ra := r.adjacency;
    var a := Dropped(adj, u);
    DropVertexSum(g, u, a);
    var b := a[..u] + a[u + 1..];
    RemovedLengths(g, u, r, a, b);
    SumLenSame(ra, b);
  }

  lemma RemovedLengths(g: QuickGraph, u: nat, r: QuickGraph, a: seq<seq<nat>>, b: seq<seq<nat>>)
    requires u < |g.adjacency| && |g.adjacency[u]| <= g.edgeCount
    requires r == RemoveVertex(g, u) && a == Dropped(g.adjacency, u) && b == a[..u] + a[u + 1..]
    ensures |r.adjacency| == |b|
    ensures forall i :: 0 <= i < |b| ==> |r.adjacency[i]| == |b[i]|
  {
    forall i | 0 <= i < |b|
      ensures |r.adjacency[i]| == |b[i]|
    {
      assert b[i] == a[Unshift(i, u)];
    }
  }

  lemma RemoveVertexShape(g: QuickGraph, u: nat, r: QuickGraph)
    requires u < |g.adjacency| && |g.adjacency[u]| <= g.edgeCount
    requires Bounded(g.adjacency) && Simple(g.adjacency)
    requires r == RemoveVertex(g, u)
    ensures Bounded(r.adjacency)
    ensures Simple(r.adjacency)
  {
    var adj := g.adjacency;
    var ra := r.adjacency;
    forall i | 0 <= i < |ra|
      ensures i !in ra[i] && Distinct(ra[i])
      ensures forall k :: 0 <= k < |ra[i]| ==> ra[i][k] < |ra|
    {
      RenumberDistinct(adj[Unshift(i, u)], u);
      RenumberHas(adj[Unshift(i, u)], u, i);
      forall k | 0 <= k < |ra[i]|
        ensures ra[i][k] < |ra|
      {
        RenumberHas(adj[Unshift(i, u)], u, ra[i][k]);
      }
    }
  }

  lemma RemoveVertexSym(g: QuickGraph, u: nat, r: QuickGraph)
    requires u < |g.adjacency| && |g.adjacency[u]| <= g.edgeCount
    requires Symmetric(g.adjacency)
    requires r == RemoveVertex(g, u)
    ensures Symmetric(r.adjacency)
  {
    var ra := r.adjacency;
    forall x, y | 0 <= x < |ra| && 0 <= y < |ra| && y in ra[x]
      ensures x in ra[y]
    {
      RemoveVertexAdjacent(g, u, x, y);
      RemoveVertexAdjacent(g, u, y, x);
    }
  }

  /** Removing a vertex keeps a valid graph valid, and never underflows
      its counter. */
  lemma RemoveVertexValid(g: QuickGraph, u: nat)
    requires Valid(g) && u < |g.adjacency|
    ensures |g.adjacency[u]| <= g.edgeCount
    ensures Valid(RemoveVertex(g, u))
  {
    ValidDegree(g, u);
    var r := RemoveVertex(g, u);
    RemoveVertexSum(g, u, r);
    RemoveVertexShape(g, u, r);
    RemoveVertexSym(g, u, r);
  }

  /** A list with the entries above `u` moved down holds `y` exactly when
      the old list held the old index of `y`, or `y` is `u` itself and the
      old list held `u`. */
  lemma DecreaseHas(xs: seq<nat>, u: nat, y: nat)
    ensures y in DecreaseVertices(xs, u) <==> Unshift(y, u) in xs || (y == u && u in xs)
  {
    var r := DecreaseVertices(xs, u);
    if y in r {
      var k :| 0 <= k < |r| && r[k] == y;
      assert xs[k] == Unshift(y, u) || (xs[k] == u && y == u);
    }
    if Unshift(y, u) in xs {
      var k :| 0 <= k < |xs| && xs[k] == Unshift(y, u);
      assert r[k] == y;
    }
    if y == u && u in xs {
      var k :| 0 <= k < |xs| && xs[k] == u;
      assert r[k] == u;
    }
  }

  /** As written, a remaining list holds `b` exactly when the old list held
      the old index of `b`, or `b` is `u` and the old list held `u`: every
      entry naming the deleted vertex survives and names vertex `u` now. */
  lemma RemoveVertexAsWrittenAdjacent(g: QuickGraph, u: nat, a: nat, b: nat)
    requires u < |g.adjacency| && |g.adjacency[u]| <= g.edgeCount
    requires a + 1 < |g.adjacency|
    ensures AreAdjacent(RemoveVertexAsWritten(g, u), a, b) <==>
      AreAdjacent(g, Unshift(a, u), Unshift(b, u)) || (b == u && AreAdjacent(g, Unshift(a, u), u))
  {
    var xs := g.adjacency[Unshift(a, u)];
    assert RemoveVertexAsWritten(g, u).adjacency[a] == DecreaseVertices(xs, u);
    DecreaseHas(xs, u, b);
  }

  /** When no list names `u`, the removal as written is the intended one. */
  lemma RemoveVertexAgrees(g: QuickGraph, u: nat)
    requires u < |g.adjacency| && |g.adjacency[u]| <= g.edgeCount
    requires forall i :: 0 <= i < |g.adjacency| ==> u !in g.adjacency[i]
    ensures RemoveVertexAsWritten(g, u) == RemoveVertex(g, u)
  {
    var n := |g.adjacency|;
    forall i | 0 <= i < n - 1
      ensures Renumber(g.adjacency[Unshift(i, u)], u) == DecreaseVertices(g.adjacency[Unshift(i, u)], u)
    {
      assert u !in g.adjacency[Unshift(i, u)];
    }
    assert RemoveVertexAsWritten(g, u).adjacency == RemoveVertex(g, u).adjacency;
  }

  // ---------------------------------------------------------------------
  // Edge contraction

  /** `take_while(|x| x != v)`: the entries before the first `v`. */
  function Before(xs: seq<nat>, v: nat): (r: seq<nat>)
    ensures |r| <= |xs| && r == xs[..|r|] && v !in r
  {
    if xs == [] || xs[0] == v then [] else [xs[0]] + Before(xs[1..], v)
  }

  /** `skip_while(|x| x != v).skip(1)`: the entries after the first `v`. */
  function After(xs: seq<nat>, v: nat): (r: seq<nat>)
  {
    if xs == [] then [] else if xs[0] == v then xs[1..] else After(xs[1..], v)
  }

  /** Around its first `v` a list splits into `Before`, `v` and `After`. */
  lemma {:induction false} BeforeAfter(xs: seq<nat>, v: nat)
    requires v in xs
    ensures xs == Before(xs, v) + [v] + After(xs, v)
  {
    if xs[0] != v {
      BeforeAfter(xs[1..], v);
      assert xs == [xs[0]] + xs[1..];
    }
  }

  /** `map(|x| if x == v {u} else {x})`. */
  function Replace(xs: seq<nat>, v: nat, u: nat): (r: seq<nat>)
    ensures |r| == |xs|
    ensures forall k :: 0 <= k < |xs| ==> r[k] == (if xs[k] == v then u else xs[k])
  {
    seq(|xs|, k requires 0 <= k < |xs| => if xs[k] == v then u else xs[k])
  }

  lemma ReplaceHas(xs: seq<nat>, v: nat, u: nat, x: nat)
    ensures x in Replace(xs, v, u) <==> (x in xs && x != v) || (x == u && v in xs)
  {
    var r := Replace(xs, v, u);
    if x in r {
      var k :| 0 <= k < |r| && r[k] == x;
    }
    if x in xs && x != v {
      var k :| 0 <= k < |xs| && xs[k] == x;
      assert r[k] == x;
    }
    if x == u && v in xs {
      var k :| 0 <= k < |xs| && xs[k] == v;
      assert r[k] == x;
    }
  }

  /** `u`'s list after contraction: its entries before `v`, then `v`'s
      entries other than `u`, then its entries after `v`. */
  function Combined(adj: seq<seq<nat>>, u: nat, v: nat): seq<nat>
    requires u < |adj| && v < |adj|
  {
    Before(adj[u], v) + Without(adj[v], u) + After(adj[u], v)
  }

  /** The lists once `u`'s list is combined and every vertex that listed
      `v` but not `u` lists `u` in its place. */
  function Redirected(adj: seq<seq<nat>>, u: nat, v: nat): (a: seq<seq<nat>>)
    requires u < |adj| && v < |adj|
    ensures |a| == |adj|
  {
    var a1 := adj[u := Combined(adj, u, v)];
    seq(|adj|, w requires 0 <= w < |adj| =>
      if v in a1[w] && u !in a1[w] then Replace(a1[w], v, u) else a1[w])
  }

  /** `contract_edge(u, v)` as written: a no-op unless `v` is in `u`'s
      list; otherwise `v` is merged into `u` and removed with
      `remove_vertex` as written, and the counter is recomputed as half the
      total list length. A vertex that listed both `u` and `v` is skipped
      by the redirecting loop, so its entry for `v` survives the removal.
      `None` when removing `v` would underflow the counter, where the
      source panics. */
  function ContractEdge(g: QuickGraph, u: nat, v: nat): (r: Option<QuickGraph>)
    requires u < |g.adjacency| && v < |g.adjacency|
    ensures !AreAdjacent(g, u, v) ==> r == Some(g)
    ensures AreAdjacent(g, u, v) ==> (r.None? <==> |Redirected(g.adjacency, u, v)[v]| > g.edgeCount)
    ensures AreAdjacent(g, u, v) && r.Some? ==>
              |r.value.adjacency| + 1 == |g.adjacency| &&
              2 * r.value.edgeCount <= SumLen(r.value.adjacency) < 2 * r.value.edgeCount + 2
  {
    if !AreAdjacent(g, u, v) then Some(g)
    else
      var a2 := Redirected(g.adjacency, u, v);
      if |a2[v]| > g.edgeCount then None
      else
        var removed := RemoveVertexAsWritten(QuickGraph(a2, g.edgeCount), v);
        Some(QuickGraph(removed.adjacency, SumLen(removed.adjacency) / 2))
  }

  /** `contract_edge(u, v)` as evidently intended: the same merge, with
      `v` also taken out of every other list when it is removed. */
  function ContractEdgeCorrected(g: QuickGraph, u: nat, v: nat): (r: Option<QuickGraph>)
    requires u < |g.adjacency| && v < |g.adjacency|
    ensures !AreAdjacent(g, u, v) ==> r == Some(g)
    ensures AreAdjacent(g, u, v) ==> (r.None? <==> |Redirected(g.adjacency, u, v)[v]| > g.edgeCount)
    ensures AreAdjacent(g, u, v) && r.Some? ==>
              |r.value.adjacency| + 1 == |g.adjacency| &&
              2 * r.value.edgeCount <= SumLen(r.value.adjacency) < 2 * r.value.edgeCount + 2
  {
    if !AreAdjacent(g, u, v) then Some(g)
    else
      var a2 := Redirected(g.adjacency, u, v);
      if |a2[v]| > g.edgeCount then None
      else
        var removed := RemoveVertex(QuickGraph(a2, g.edgeCount), v);
        Some(QuickGraph(removed.adjacency, SumLen(removed.adjacency) / 2))
  }

  /** On a valid graph, contracting distinct `u`, `v` never hits the
      counter underflow, as written or corrected. */
  lemma ContractEdgeDefined(g: QuickGraph, u: nat, v: nat)
    requires Valid(g) && u < |g.adjacency| && v < |g.adjacency| && u != v
    ensures ContractEdge(g, u, v).Some?
    ensures ContractEdgeCorrected(g, u, v).Some?
  {
    if AreAdjacent(g, u, v) {
      ValidDegree(g, v);
      assert v !in g.adjacency[v];
      assert Redirected(g.adjacency, u, v)[v] == g.adjacency[v];
    }
  }

  /** The triangle on {0, 1, 2}. */
  lemma TriangleValid()
    ensures Valid(QuickGraph([[1, 2], [0, 2], [0, 1]], 3))
  {
    var adj := [[1, 2], [0, 2], [0, 1]];
    assert SumLen(adj[..2]) == SumLen(adj[..1]) + 2;
    assert SumLen(adj[..1]) == SumLen(adj[..0]) + 2;
    assert adj[..3] == adj;
    assert Symmetric(adj) by {
      forall a, b | 0 <= a < 3 && 0 <= b < 3 && b in adj[a]
        ensures a in adj[b]
      {
        assert b != a;
      }
    }
  }

  /** On the triangle, merging 1 into 0 gives 0 the list [2, 2], and vertex
      2, which lists both, is left alone. */
  lemma TriangleRedirected()
    ensures Redirected([[1, 2], [0, 2], [0, 1]], 0, 1) == [[2, 2], [0, 2], [0, 1]]
  {
    var adj := [[1, 2], [0, 2], [0, 1]];
    assert Before([1, 2], 1) == [] by {
      assert [1, 2][0] == 1;
    }
    assert After([1, 2], 1) == [2] by {
      assert [1, 2][0] == 1;
      assert [1, 2][1..] == [2];
    }
    assert Without([0, 2], 0) == [2] by {
      assert [0, 2][1..] == [2];
      assert [2][1..] == [];
    }
    assert Combined(adj, 0, 1) == [2, 2];
    var a1 := adj[0 := [2, 2]];
    assert 1 !in a1[0] && 1 !in a1[1] && 0 in a1[2];
  }

  lemma SumLenTwo(x: seq<nat>, y: seq<nat>)
    ensures SumLen([x, y]) == |x| + |y|
  {
    assert SumLen([x]) == |x| by {
      assert [x][..0] == [];
    }
    assert [x, y][..1] == [x];
    assert SumLen([x, y]) == SumLen([x]) + |y|;
  }

  /** The triangle {0, 1, 2}, contracting the edge {0, 1}: vertex 2 listed
      both 0 and 1, so the loop leaves it alone and, as written, its entry
      for 1 survives the removal and now names vertex 2 itself. The
      corrected contraction drops that entry. */
  lemma ContractEdgeAsWrittenStale()
    ensures Valid(QuickGraph([[1, 2], [0, 2], [0, 1]], 3))
    ensures ContractEdge(QuickGraph([[1, 2], [0, 2], [0, 1]], 3), 0, 1) == Some(QuickGraph([[1, 1], [0, 1]], 2))
    ensures ContractEdgeCorrected(QuickGraph([[1, 2], [0, 2], [0, 1]], 3), 0, 1) == Some(QuickGraph([[1, 1], [0]], 1))
    ensures !Valid(QuickGraph([[1, 1], [0, 1]], 2))
  {
    TriangleValid();
    TriangleRedirected();
    var a2 := [[2, 2], [0, 2], [0, 1]];
    assert 1 in [1, 2];
    var w := RemoveVertexAsWritten(QuickGraph(a2, 3), 1);
    assert w.adjacency == [DecreaseVertices([2, 2], 1), DecreaseVertices([0, 1], 1)];
    assert DecreaseVertices([2, 2], 1) == [1, 1];
    assert DecreaseVertices([0, 1], 1) == [0, 1];
    SumLenTwo([1, 1], [0, 1]);
    var c := RemoveVertex(QuickGraph(a2, 3), 1);
    assert c.adjacency == [Renumber([2, 2], 1), Renumber([0, 1], 1)];
    assert Renumber([2, 2], 1) == [1, 1] by {
      assert 1 !in [2, 2];
    }
    assert Renumber([0, 1], 1) == [0] by {
      assert Without([0, 1], 1) == [0] by {
        assert [0, 1][1..] == [1];
        assert [1][1..] == [];
      }
    }
    SumLenTwo([1, 1], [0]);
    assert 1 in [[1, 1], [0, 1]][1];
  }

  lemma CombinedHas(adj: seq<seq<nat>>, u: nat, v: nat, x: nat)
    requires u < |adj| && v < |adj| && v in adj[u] && Distinct(adj[u])
    ensures x in Combined(adj, u, v) <==> (x in adj[u] && x != v) || (x in adj[v] && x != u)
  {
    var xs := adj[u];
    BeforeAfter(xs, v);
    var b, c := Before(xs, v), After(xs, v);
    assert xs == b + [v] + c;
    forall k | 0 <= k < |c|
      ensures c[k] != v
    {
      assert c[k] == xs[|b| + 1 + k] && v == xs[|b|];
    }
    assert x in xs <==> x in b || x == v || x in c;
  }

  /** The merged vertex (numbered `Shift(u, v)` afterwards) is adjacent to
      exactly the former neighbours of `u` or `v` other than `u` and `v`:
      its combined list never names `v`, so this holds as written. */
  lemma ContractedNeighbors(g: QuickGraph, u: nat, v: nat, r: QuickGraph, y: nat)
    requires Valid(g) && u < |g.adjacency| && v < |g.adjacency| && u != v
    requires AreAdjacent(g, u, v) && ContractEdge(g, u, v) == Some(r)
    ensures Shift(u, v) < |r.adjacency|
    ensures AreAdjacent(r, Shift(u, v), y) <==>
              (Unshift(y, v) in g.adjacency[u] || Unshift(y, v) in g.adjacency[v]) && Unshift(y, v) != u
  {
    var adj := g.adjacency;
    var a2 := Redirected(adj, u, v);
    var x := Unshift(y, v);
    assert v !in Combined(adj, u, v) by {
      CombinedHas(adj, u, v, v);
    }
    assert a2[u] == Combined(adj, u, v);
    CombinedHas(adj, u, v, x);
    DecreaseHas(a2[u], v, y);
    assert Unshift(Shift(u, v), v) == u;
  }

  /** The same for the corrected contraction. */
  lemma ContractedNeighborsCorrected(g: QuickGraph, u: nat, v: nat, r: QuickGraph, y: nat)
    requires Valid(g) && u < |g.adjacency| && v < |g.adjacency| && u != v
    requires AreAdjacent(g, u, v) && ContractEdgeCorrected(g, u, v) == Some(r)
    ensures Shift(u, v) < |r.adjacency|
    ensures AreAdjacent(r, Shift(u, v), y) <==>
              (Unshift(y, v) in g.adjacency[u] || Unshift(y, v) in g.adjacency[v]) && Unshift(y, v) != u
  {
    var adj := g.adjacency;
    var a2 := Redirected(adj, u, v);
    var x := Unshift(y, v);
    assert v !in Combined(adj, u, v) by {
      CombinedHas(adj, u, v, v);
    }
    assert a2[u] == Combined(adj, u, v);
    CombinedHas(adj, u, v, x);
    RenumberHas(a2[u], v, y);
    assert Unshift(Shift(u, v), v) == u;
  }

  /** As written, every other vertex keeps its neighbours with `v` read as
      the merged vertex, except that a vertex which listed both `u` and `v`
      keeps a stale entry `v`, which after the removal names the vertex
      numbered `v`. */
  lemma ContractedOtherAsWritten(g: QuickGraph, u: nat, v: nat, r: QuickGraph, w: nat, y: nat)
    requires Valid(g) && u < |g.adjacency| && v < |g.adjacency| && u != v
    requires AreAdjacent(g, u, v) && ContractEdge(g, u, v) == Some(r)
    requires w < |g.adjacency| && w != u && w != v
    ensures Shift(w, v) < |r.adjacency|
    ensures AreAdjacent(r, Shift(w, v), y) <==>
              Unshift(y, v) in g.adjacency[w] || (Unshift(y, v) == u && v in g.adjacency[w]) ||
              (y == v && v in g.adjacency[w] && u in g.adjacency[w])
  {
    var adj := g.adjacency;
    var a2 := Redirected(adj, u, v);
    var x := Unshift(y, v);
    assert Unshift(Shift(w, v), v) == w;
    ReplaceHas(adj[w], v, u, x);
    ReplaceHas(adj[w], v, u, v);
    DecreaseHas(a2[w], v, y);
  }

  /** Corrected, every other vertex keeps its neighbours, with `v` read as
      the merged vertex. */
  lemma ContractedOther(g: QuickGraph, u: nat, v: nat, r: QuickGraph, w: nat, y: nat)
    requires Valid(g) && u < |g.adjacency| && v < |g.adjacency| && u != v
    requires AreAdjacent(g, u, v) && ContractEdgeCorrected(g, u, v) == Some(r)
    requires w < |g.adjacency| && w != u && w != v
    ensures Shift(w, v) < |r.adjacency|
    ensures AreAdjacent(r, Shift(w, v), y) <==>
              Unshift(y, v) in g.adjacency[w] || (Unshift(y, v) == u && v in g.adjacency[w])
  {
    var adj := g.adjacency;
    var a2 := Redirected(adj, u, v);
    var x := Unshift(y, v);
    assert Unshift(Shift(w, v), v) == w;
    ReplaceHas(adj[w], v, u, x);
    RenumberHas(a2[w], v, y);
  }
}
