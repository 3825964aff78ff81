/** `NodeRelations::new`: parent and children of every bag, found by a
    breadth-first walk from the root. A bag is marked visited when it is
    dequeued; every unvisited neighbour is enqueued, and the first bag to
    enqueue a neighbour becomes its parent. */
module NodeRelations {
  import opened Wrappers
  import opened TreeDecomps

  datatype NodeParent = Fake | Real(p: nat)

  datatype Relations = Relations(parent: map<nat, NodeParent>, children: map<nat, seq<nat>>)

  datatype Walk = Walk(queue: seq<nat>, visited: set<nat>, rel: Relations)

  /** `xs` is `ys` with some elements left out, order kept. */
  predicate Subseq(xs: seq<nat>, ys: seq<nat>)
    decreases |ys|
  {
    if xs == [] then true
    else if ys == [] then false
    else if xs[0] == ys[0] then Subseq(xs[1..], ys[1..])
    else Subseq(xs, ys[1..])
  }

  /** The neighbour loop of one dequeued bag `b`: returns the enqueued
      neighbours, the grown parent map and the children it recorded. */
  function VisitNeighbors(visited: set<nat>, parent: map<nat, NodeParent>, b: nat, ns: seq<nat>)
    : (r: (seq<nat>, map<nat, NodeParent>, seq<nat>))
    ensures forall n :: n in r.0 <==> n in ns && n !in visited
    ensures parent.Keys <= r.1.Keys && forall n :: n in parent ==> r.1[n] == parent[n]
    ensures forall n :: n in r.1 && n !in parent ==> r.1[n] == Real(b) && n in r.2
    ensures forall n :: n in r.2 <==> n in r.1 && n !in parent
    ensures Subseq(r.2, ns)
    decreases |ns|
  {
    if ns == [] then ([], parent, [])
    else
      var n := ns[0];
      if n in visited then
        var r := VisitNeighbors(visited, parent, b, ns[1..]);
        SubseqSkip(r.2, ns);
        r
      else if n !in parent then
        var r := VisitNeighbors(visited, parent[n := Real(b)], b, ns[1..]);
        ([n] + r.0, r.1, [n] + r.2)
      else
        var r := VisitNeighbors(visited, parent, b, ns[1..]);
        SubseqSkip(r.2, ns);
        ([n] + r.0, r.1, r.2)
  }

  lemma {:induction false} SubseqSkip(xs: seq<nat>, ys: seq<nat>)
    requires ys != [] && Subseq(xs, ys[1..])
    ensures Subseq(xs, ys)
    decreases |ys|, |xs|
  {
    if xs != [] && xs[0] == ys[0] {
      SubseqTail(xs, ys[1..]);
    }
  }

  /** Dropping the first element of a subsequence keeps it a subsequence. */
  lemma {:induction false} SubseqTail(xs: seq<nat>, ys: seq<nat>)
    requires xs != [] && Subseq(xs, ys)
    ensures Subseq(xs[1..], ys)
    decreases |ys|, |xs|
  {
    if xs[0] == ys[0] {
      SubseqSkip(xs[1..], ys);
    } else {
      SubseqTail(xs, ys[1..]);
      SubseqSkip(xs[1..], ys);
    }
  }

  /** One turn of the loop: dequeue, mark visited, reset the bag's children. */
  function Step(td: Td, w: Walk): (r: Option<Walk>)
    requires w.queue != [] && NeighborsInRange(td)
    ensures r.Some? <==> w.queue[0] < |td.bags|
    ensures r.Some? ==> r.value.visited == w.visited + {w.queue[0]}
    ensures r.Some? ==> w.rel.parent.Keys <= r.value.rel.parent.Keys
  {
    var b := w.queue[0];
    if b >= |td.bags| then None
    else
      var visited := w.visited + {b};
      var vn := VisitNeighbors(visited, w.rel.parent, b, td.bags[b].neighbors);
      Some(Walk(w.queue[1..] + vn.0, visited, Relations(vn.1, w.rel.children[b := vn.2])))
  }

  /** The whole walk, cut off after `fuel` dequeues. */
  function Run(td: Td, w: Walk, fuel: nat): (r: Option<Relations>)
    requires NeighborsInRange(td)
    decreases fuel
  {
    if w.queue == [] then Some(w.rel)
    else if fuel == 0 then None
    else
      match Step(td, w)
      case None => None
      case Some(w') => Run(td, w', fuel - 1)
  }

  function Start(root: nat): Walk {
    Walk([root], {}, Relations(map[root := Fake], map[]))
  }

  /** `NodeRelations::new`; `None` when the source panics (no root, an
      index past the bags) or the walk needs more than `fuel` dequeues. */
  function New(td: Td, fuel: nat): (r: Option<Relations>)
    requires NeighborsInRange(td)
    ensures td.root.None? ==> r.None?
  {
    if td.root.None? then None else Run(td, Start(td.root.value), fuel)
  }

  /** The root's parent is `Fake`, each recorded child's parent is the bag
      listing it, and children appear in neighbour order. */
  ghost predicate RelOk(td: Td, root: nat, rel: Relations) {
    root in rel.parent && rel.parent[root] == Fake &&
    (forall p, n :: p in rel.children && n in rel.children[p] ==> n in rel.parent && rel.parent[n] == Real(p)) &&
    (forall p :: p in rel.children ==> p < |td.bags| && Subseq(rel.children[p], td.bags[p].neighbors))
  }

  /** What holds at every turn: besides `RelOk`, every parent and every bag
      with a children entry has been dequeued. */
  ghost predicate Inv(td: Td, root: nat, w: Walk) {
    RelOk(td, root, w.rel) &&
    (forall n :: n in w.rel.parent && w.rel.parent[n].Real? ==> w.rel.parent[n].p in w.visited) &&
    w.rel.children.Keys <= w.visited
  }

  lemma StartInv(td: Td, root: nat)
    ensures Inv(td, root, Start(root))
  {
  }

  lemma StepInv(td: Td, root: nat, w: Walk, w': Walk)
    requires NeighborsInRange(td) && w.queue != [] && Inv(td, root, w)
    requires Step(td, w) == Some(w')
    ensures Inv(td, root, w')
  {
    var b := w.queue[0];
    var vn := VisitNeighbors(w.visited + {b}, w.rel.parent, b, td.bags[b].neighbors);
    StepParts(td, root, w, b, vn.1, vn.2, w');
  }

  /** `Inv` after a turn that dequeued `b`, grew the parent map to `parent`
      and recorded `kids` as the children of `b`. */
  lemma StepParts(td: Td, root: nat, w: Walk, b: nat, parent: map<nat, NodeParent>, kids: seq<nat>, w': Walk)
    requires Inv(td, root, w) && b < |td.bags|
    requires w.rel.parent.Keys <= parent.Keys && forall n :: n in w.rel.parent ==> parent[n] == w.rel.parent[n]
    requires forall n :: n in parent && n !in w.rel.parent ==> parent[n] == Real(b)
    requires forall n :: n in kids ==> n in parent && parent[n] == Real(b)
    requires Subseq(kids, td.bags[b].neighbors)
    requires w'.visited == w.visited + {b} && w'.rel == Relations(parent, w.rel.children[b := kids])
    ensures Inv(td, root, w')
  {
    ChildrenHaveParent(w.rel, parent, w'.rel.children, b, kids);
  }

  /** Recording `kids` for `b` keeps every listed child pointing at its parent. */
  lemma ChildrenHaveParent(prev: Relations, parent: map<nat, NodeParent>, children: map<nat, seq<nat>>,
                           b: nat, kids: seq<nat>)
    requires forall p, n :: p in prev.children && n in prev.children[p] ==> n in prev.parent && prev.parent[n] == Real(p)
    requires prev.parent.Keys <= parent.Keys && forall n :: n in prev.parent ==> parent[n] == prev.parent[n]
    requires forall n :: n in kids ==> n in parent && parent[n] == Real(b)
    requires children == prev.children[b := kids]
    ensures forall p, n :: p in children && n in children[p] ==> n in parent && parent[n] == Real(p)
  {
    forall p, n | p in children && n in children[p]
      ensures n in parent && parent[n] == Real(p)
    {
      if p != b {
        assert n in prev.children[p];
      }
    }
  }

  lemma {:induction false} RunInv(td: Td, root: nat, w: Walk, fuel: nat, rel: Relations)
    requires NeighborsInRange(td) && Inv(td, root, w)
    requires Run(td, w, fuel) == Some(rel)
    ensures RelOk(td, root, rel)
    decreases fuel
  {
    if w.queue == [] {
      RunDone(td, root, w, fuel, rel);
    } else {
      var w' := RunStep(td, w, fuel, rel);
      StepInv(td, root, w, w');
      RunInv(td, root, w', fuel - 1, rel);
    }
  }

  lemma RunDone(td: Td, root: nat, w: Walk, fuel: nat, rel: Relations)
    requires NeighborsInRange(td) && Inv(td, root, w) && w.queue == [] && Run(td, w, fuel) == Some(rel)
    ensures RelOk(td, root, rel)
  {
  }

  /** A run that goes on after a non-empty queue took one step. */
  lemma RunStep(td: Td, w: Walk, fuel: nat, rel: Relations) returns (w': Walk)
    requires NeighborsInRange(td) && w.queue != [] && Run(td, w, fuel) == Some(rel)
    ensures fuel > 0 && Step(td, w) == Some(w') && Run(td, w', fuel - 1) == Some(rel)
  {
    w' := Step(td, w).value;
  }

  /** The finished relations satisfy `RelOk`. */
  lemma NewRelations(td: Td, fuel: nat)
    requires NeighborsInRange(td) && New(td, fuel).Some?
    ensures RelOk(td, td.root.value, New(td, fuel).value)
  {
    var root := td.root.value;
    StartInv(td, root);
    RunInv(td, root, Start(root), fuel, New(td, fuel).value);
  }
}
