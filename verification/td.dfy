/** The tree-decomposition record the Rust code takes from the `arboretum_td`
    crate: bags with an id, a vertex set and a neighbour list, an optional
    root and a maximal bag size. The crate is not part of this model; its
    `add_bag` and `add_edge` are modelled as the code here relies on them:
    `add_bag` appends a bag whose id is its index and makes it the root when
    there is none yet, `add_edge` links two bags both ways, once. Neighbour
    sets are lists in insertion order. */
module TreeDecomps {
  import opened Wrappers

  datatype Bag = Bag(id: nat, vertexSet: set<nat>, neighbors: seq<nat>)

  datatype Td = Td(bags: seq<Bag>, root: Option<nat>, maxBagSize: nat)

  /** Every bag's id is its index and every neighbour is a bag. */
  predicate Indexed(td: Td) {
    (forall i :: 0 <= i < |td.bags| ==> td.bags[i].id == i) && NeighborsInRange(td)
  }

  /** Every neighbour index names a bag, which indexing the bag vector needs. */
  predicate NeighborsInRange(td: Td) {
    forall i, j :: 0 <= i < |td.bags| && 0 <= j < |td.bags[i].neighbors| ==> td.bags[i].neighbors[j] < |td.bags|
  }

  /** `add_bag`: returns the new bag's id. */
  function AddBag(td: Td, vs: set<nat>): (r: (nat, Td))
    ensures r.0 == |td.bags| && r.1.bags == td.bags + [Bag(r.0, vs, [])]
    ensures r.1.root == (if td.root.None? then Some(r.0) else td.root)
    ensures r.1.maxBagSize == td.maxBagSize
    ensures Indexed(td) ==> Indexed(r.1)
  {
    var id := |td.bags|;
    var r := Td(td.bags + [Bag(id, vs, [])], if td.root.None? then Some(id) else td.root, td.maxBagSize);
    assert forall i :: 0 <= i < |td.bags| ==> r.bags[i] == td.bags[i];
    (id, r)
  }

  function Link(ns: seq<nat>, b: nat): (r: seq<nat>)
    ensures b in r && forall x :: x in r <==> x in ns || x == b
    ensures ns <= r && |r| <= |ns| + 1
  {
    if b in ns then ns else ns + [b]
  }

  /** `add_edge`: makes `a` and `b` neighbours of each other. */
  function AddEdge(td: Td, a: nat, b: nat): (r: Td)
    requires a < |td.bags| && b < |td.bags|
    ensures |r.bags| == |td.bags| && r.root == td.root && r.maxBagSize == td.maxBagSize
    ensures b in r.bags[a].neighbors && a in r.bags[b].neighbors
    ensures forall i :: 0 <= i < |r.bags| ==>
      r.bags[i].id == td.bags[i].id && r.bags[i].vertexSet == td.bags[i].vertexSet &&
      td.bags[i].neighbors <= r.bags[i].neighbors
    ensures Indexed(td) ==> Indexed(r)
  {
    var ba := td.bags[a];
    var t1 := td.(bags := td.bags[a := ba.(neighbors := Link(ba.neighbors, b))]);
    var bb := t1.bags[b];
    t1.(bags := t1.bags[b := bb.(neighbors := Link(bb.neighbors, a))])
  }

  /** `add_edge` adds no neighbour other than the two ends. */
  lemma AddEdgeOnly(td: Td, a: nat, b: nat)
    requires a < |td.bags| && b < |td.bags|
    ensures var r := AddEdge(td, a, b);
      forall i, x :: 0 <= i < |r.bags| && x in r.bags[i].neighbors ==>
        x in td.bags[i].neighbors || (i == a && x == b) || (i == b && x == a)
  {
    var r := AddEdge(td, a, b);
    forall i, x | 0 <= i < |r.bags| && x in r.bags[i].neighbors
      ensures x in td.bags[i].neighbors || (i == a && x == b) || (i == b && x == a)
    {
    }
  }
}
