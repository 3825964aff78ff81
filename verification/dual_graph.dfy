/** The dual graph of a DCEL with respect to a spanning tree: one vertex per
    face, and an edge from a face to the face across each of its boundary
    arcs that the spanning tree does not use. */
module DualGraphs {
  import opened Wrappers
  import opened SetSeqs
  import opened Dcels

  datatype DualGraph = DualGraph(adjacent: seq<seq<nat>>)

  /** Every arc of `walk` names an arc of `d`, and the tree flags cover the arcs. */
  predicate ArcsOf(d: Dcel, contains: seq<bool>, walk: seq<nat>) {
    Closed(d) && |contains| == |d.arcs| && forall k :: 0 <= k < |walk| ==> walk[k] < |d.arcs|
  }

  /** The face across arc `a`. */
  function Across(d: Dcel, a: nat): nat
    requires Closed(d) && a < |d.arcs|
  {
    d.arcs[d.arcs[a].twin].face
  }

  /** The faces across the arcs of `walk` that are not tree arcs, in walk
      order: what `add_face` appends for a face whose boundary is `walk`. */
  function TwinFaces(d: Dcel, contains: seq<bool>, walk: seq<nat>): (r: seq<nat>)
    requires ArcsOf(d, contains, walk)
    ensures |r| <= |walk|
    decreases |walk|
  {
    if walk == [] then []
    else
      var a := walk[|walk| - 1];
      TwinFaces(d, contains, walk[..|walk| - 1]) + (if contains[a] then [] else [Across(d, a)])
  }

  /** A face is listed exactly when it lies across a non-tree arc of the walk. */
  lemma {:induction false} TwinFacesIn(d: Dcel, contains: seq<bool>, walk: seq<nat>)
    requires ArcsOf(d, contains, walk)
    ensures forall x :: x in TwinFaces(d, contains, walk) ==> exists a :: a in walk && !contains[a] && Across(d, a) == x
    ensures forall a :: a in walk && !contains[a] ==> Across(d, a) in TwinFaces(d, contains, walk)
    decreases |walk|
  {
    if walk != [] {
      var a := walk[|walk| - 1];
      var init := walk[..|walk| - 1];
      assert forall b :: b in walk <==> b in init || b == a;
      TwinFacesIn(d, contains, init);
    }
  }

  /** `DualGraph::new`: one empty adjacency list per face. */
  function New(d: Dcel): (g: DualGraph)
    ensures NumVertices(g) == |d.faces|
    ensures forall i :: 0 <= i < |g.adjacent| ==> g.adjacent[i] == []
  {
    DualGraph(seq(|d.faces|, _ => []))
  }

  /** `add_face`: walks the face and appends the face across each non-tree arc. */
  method AddFace(g: DualGraph, d: Dcel, contains: seq<bool>, walk: seq<nat>, idx: nat) returns (r: DualGraph)
    requires ArcsOf(d, contains, walk) && idx < |g.adjacent|
    ensures r.adjacent == g.adjacent[idx := g.adjacent[idx] + TwinFaces(d, contains, walk)]
  {
    var row := g.adjacent[idx];
    assert walk[..0] == [];
    for i := 0 to |walk|
      invariant row == g.adjacent[idx] + TwinFaces(d, contains, walk[..i])
    {
      var a := walk[i];
      TwinFacesStep(d, contains, walk, i);
      if contains[a] {
        continue;
      }
      row := row + [Across(d, a)];
    }
    assert walk[..|walk|] == walk;
    r := g.(adjacent := g.adjacent[idx := row]);
  }

  lemma TwinFacesStep(d: Dcel, contains: seq<bool>, walk: seq<nat>, i: nat)
    requires ArcsOf(d, contains, walk) && i < |walk|
    ensures TwinFaces(d, contains, walk[..i + 1]) ==
      TwinFaces(d, contains, walk[..i]) + (if contains[walk[i]] then [] else [Across(d, walk[i])])
  {
    assert walk[..i + 1][..i] == walk[..i];
  }

  /** Every face's walk comes back to its start arc. */
  predicate Walkable(d: Dcel) {
    Closed(d) && forall f :: 0 <= f < |d.faces| ==> WalkFace(d, f).Some?
  }

  /** Row `f` of `cur` is row `f` of `g` followed by the faces across the
      non-tree arcs of face `f`. */
  predicate RowFilled(d: Dcel, contains: seq<bool>, g: DualGraph, cur: DualGraph, f: nat)
    requires Closed(d) && |contains| == |d.arcs| && f < |d.faces|
  {
    WalkFace(d, f).Some? && f < |g.adjacent| && f < |cur.adjacent| &&
    cur.adjacent[f] == g.adjacent[f] + TwinFaces(d, contains, WalkFace(d, f).value)
  }

  /** `build`: `add_face` for every face in index order. The source loops
      for ever on a face whose walk never comes back; the model says `None`. */
  method Build(g: DualGraph, d: Dcel, contains: seq<bool>) returns (r: Option<DualGraph>)
    requires Closed(d) && |contains| == |d.arcs| && |g.adjacent| == |d.faces|
    ensures r.Some? <==> Walkable(d)
    ensures r.Some? ==> |r.value.adjacent| == |g.adjacent|
    ensures r.Some? ==> forall f :: 0 <= f < |d.faces| ==> RowFilled(d, contains, g, r.value, f)
  {
    var cur := g;
    for i := 0 to |d.faces|
      invariant |cur.adjacent| == |g.adjacent|
      invariant forall f :: 0 <= f < i ==> RowFilled(d, contains, g, cur, f)
      invariant forall f :: i <= f < |d.faces| ==> cur.adjacent[f] == g.adjacent[f]
    {
      match WalkFace(d, i)
      case None =>
        return None;
      case Some(walk) =>
        var next := AddFace(cur, d, contains, walk, i);
        assert RowFilled(d, contains, g, next, i);
        forall f | 0 <= f < i
          ensures RowFilled(d, contains, g, next, f)
        {
          assert RowFilled(d, contains, g, cur, f);
          assert next.adjacent[f] == cur.adjacent[f];
        }
        cur := next;
    }
    assert Walkable(d) by {
      forall f | 0 <= f < |d.faces|
        ensures WalkFace(d, f).Some?
      {
        assert RowFilled(d, contains, g, cur, f);
      }
    }
    return Some(cur);
  }

  /** `get_vertices`: the dual vertices are the face indices. */
  function GetVertices(g: DualGraph): (r: seq<nat>)
    ensures Distinct(r)
    ensures forall v: nat :: v in r <==> v < NumVertices(g)
  {
    var r := seq(|g.adjacent|, i => i);
    forall v: nat | v in r
      ensures v < |r|
    {
      var k :| 0 <= k < |r| && r[k] == v;
    }
    forall v: nat | v < |r|
      ensures v in r
    {
      assert r[v] == v;
    }
    r
  }

  /** `num_vertices`: one dual vertex per adjacency list. */
  function NumVertices(g: DualGraph): nat {
    |g.adjacent|
  }

  /** `get_neighbors`: the stored adjacency list. */
  function GetNeighbors(g: DualGraph, idx: nat): seq<nat>
    requires idx < |g.adjacent|
  {
    g.adjacent[idx]
  }

  // ---------------------------------------------------------------------
  // Symmetry

  /** Each face's walk lists exactly the arcs on that face. */
  predicate FacesAgree(d: Dcel) {
    Walkable(d) &&
    forall f, a :: 0 <= f < |d.faces| && 0 <= a < |d.arcs| ==>
      (a in WalkFace(d, f).value <==> d.arcs[a].face == f)
  }

  /** Twins pair up, and the spanning tree holds an arc with its twin. */
  predicate TwinsPaired(d: Dcel, contains: seq<bool>) {
    Closed(d) && |contains| == |d.arcs| &&
    forall a :: 0 <= a < |d.arcs| ==>
      d.arcs[d.arcs[a].twin].twin == a && contains[d.arcs[a].twin] == contains[a] &&
      d.arcs[a].face < |d.faces|
  }

  /** When faces and twins are consistent and the tree holds arcs with their
      twins, the built dual graph is undirected: `j` is a neighbour of `i`
      exactly when `i` is a neighbour of `j`. */
  lemma BuiltSymmetric(d: Dcel, contains: seq<bool>, adj: seq<seq<nat>>)
    requires FacesAgree(d) && TwinsPaired(d, contains) && |adj| == |d.faces|
    requires forall f :: 0 <= f < |d.faces| ==> adj[f] == TwinFaces(d, contains, WalkFace(d, f).value)
    ensures forall i, j :: 0 <= i < |d.faces| && 0 <= j < |d.faces| ==> (j in adj[i] <==> i in adj[j])
  {
    forall i, j | 0 <= i < |d.faces| && 0 <= j < |d.faces| && j in adj[i]
      ensures i in adj[j]
    {
      Toward(d, contains, adj, i, j);
    }
  }

  lemma Toward(d: Dcel, contains: seq<bool>, adj: seq<seq<nat>>, i: nat, j: nat)
    requires FacesAgree(d) && TwinsPaired(d, contains) && |adj| == |d.faces|
    requires forall f :: 0 <= f < |d.faces| ==> adj[f] == TwinFaces(d, contains, WalkFace(d, f).value)
    requires i < |d.faces| && j < |d.faces| && j in adj[i]
    ensures i in adj[j]
  {
    var wi := WalkFace(d, i).value;
    var wj := WalkFace(d, j).value;
    WalkFaceCycle(d, i);
    WalkFaceCycle(d, j);
    TwinFacesIn(d, contains, wi);
    TwinFacesIn(d, contains, wj);
    var a :| a in wi && !contains[a] && Across(d, a) == j;
    var b := d.arcs[a].twin;
    assert d.arcs[a].face == i;
    assert d.arcs[b].face == j;
    assert b in wj && !contains[b];
    assert Across(d, b) == i;
  }
}
