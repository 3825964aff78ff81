/** The conversion of a DCEL into a tree-decomposition record: one bag per
    face holding the ids of the arcs on that face's boundary walk, in face
    order, with no edges between the bags. */
module TdFromDcel {
  import opened Wrappers
  import opened Dcels
  import opened TreeDecomps
  import opened DualGraphs

  /** Bag `f` is the bag the conversion makes for face `f`. */
  ghost predicate FaceBag(d: Dcel, td: Td, f: nat)
    requires Closed(d) && f < |d.faces|
  {
    f < |td.bags| && WalkFace(d, f).Some? &&
    (forall a :: a in td.bags[f].vertexSet <==> a in WalkFace(d, f).value) &&
    td.bags[f].id == f && td.bags[f].neighbors == []
  }

  /** The walk of a face as a set, the way the conversion collects it. */
  method CollectWalk(walk: seq<nat>) returns (s: set<nat>)
    ensures forall a :: a in s <==> a in walk
  {
    s := {};
    for i := 0 to |walk|
      invariant forall a :: a in s <==> a in walk[..i]
    {
      assert walk[..i + 1] == walk[..i] + [walk[i]];
      s := s + {walk[i]};
    }
    assert walk[..|walk|] == walk;
  }

  /** `From<&Dcel> for TreeDecomposition`: one bag per face in face order,
      the first bag as root, the number of faces as the maximal bag size.
      The source loops for ever on a face whose walk never comes back to its
      start arc; the model says `None` there. */
  method FromDcel(d: Dcel) returns (r: Option<Td>)
    requires Closed(d)
    ensures r.Some? <==> Walkable(d)
    ensures r.Some? ==> |r.value.bags| == |d.faces| && r.value.maxBagSize == |d.faces|
    ensures r.Some? ==> r.value.root == (if |d.faces| == 0 then None else Some(0))
    ensures r.Some? ==> Indexed(r.value)
    ensures r.Some? ==> forall f :: 0 <= f < |d.faces| ==> FaceBag(d, r.value, f)
  {
    var td := Td([], None, |d.faces|);
    for f := 0 to |d.faces|
      invariant |td.bags| == f && td.maxBagSize == |d.faces| && Indexed(td)
      invariant td.root == (if f == 0 then None else Some(0))
      invariant forall g :: 0 <= g < f ==> FaceBag(d, td, g)
    {
      match WalkFace(d, f)
      case None =>
        return None;
      case Some(walk) =>
        var vs := CollectWalk(walk);
        var prev := td;
        var (_, next) := AddBag(td, vs);
        td := next;
        forall g | 0 <= g < f
          ensures FaceBag(d, td, g)
        {
          assert FaceBag(d, prev, g);
          assert td.bags[g] == prev.bags[g];
        }
        assert FaceBag(d, td, f);
    }
    assert Walkable(d) by {
      forall f | 0 <= f < |d.faces|
        ensures WalkFace(d, f).Some?
      {
        assert FaceBag(d, td, f);
      }
    }
    return Some(td);
  }

  /** When each face's walk lists exactly the arcs on that face, the bags
      partition the arcs: every arc lies in the bag of its own face and in
      no other bag. */
  lemma BagsPartitionArcs(d: Dcel, td: Td)
    requires FacesAgree(d) && |td.bags| == |d.faces|
    requires forall f :: 0 <= f < |d.faces| ==> FaceBag(d, td, f)
    ensures forall f, a :: 0 <= f < |d.faces| && 0 <= a < |d.arcs| ==>
      (a in td.bags[f].vertexSet <==> d.arcs[a].face == f)
  {
    forall f, a | 0 <= f < |d.faces| && 0 <= a < |d.arcs|
      ensures a in td.bags[f].vertexSet <==> d.arcs[a].face == f
    {
      assert FaceBag(d, td, f);
    }
  }
}
