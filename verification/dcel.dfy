/** The doubly connected edge list: vertices with their outgoing arcs in
    rotation order, arcs with source, destination, the next and previous
    arc of their face, their twin and their face, and faces with one start
    arc. Getters are the datatypes' fields. */
module Dcels {
  import opened Wrappers
  import opened SetSeqs

  datatype Arc = Arc(src: nat, dst: nat, next: nat, prev: nat, twin: nat, face: nat)

  datatype Vertex = Vertex(arcs: seq<nat>)

  datatype Face = Face(startArc: nat)

  datatype Dcel = Dcel(vertices: seq<Vertex>, arcs: seq<Arc>, faces: seq<Face>)

  /** `Dcel::new`. */
  function Empty(): (d: Dcel)
    ensures |d.vertices| == 0 && |d.arcs| == 0 && |d.faces| == 0
  {
    Dcel([], [], [])
  }

  /** `Arc::set_face`: the face changes and nothing else. */
  function SetFace(a: Arc, f: nat): (r: Arc)
    ensures r.face == f
    ensures r.src == a.src && r.dst == a.dst && r.next == a.next && r.prev == a.prev && r.twin == a.twin
  {
    a.(face := f)
  }

  /** `Vertex::push_arc`: appends at the end of the rotation. */
  function PushVertexArc(v: Vertex, a: nat): (r: Vertex)
    ensures |r.arcs| == |v.arcs| + 1 && r.arcs[..|v.arcs|] == v.arcs && r.arcs[|v.arcs|] == a
  {
    Vertex(v.arcs + [a])
  }

  /** `push_vertex`: one more vertex at the end, the rest unchanged. */
  function PushVertex(d: Dcel, v: Vertex): (r: Dcel)
    ensures |r.vertices| == |d.vertices| + 1 && r.vertices[..|d.vertices|] == d.vertices && r.vertices[|d.vertices|] == v
    ensures r.arcs == d.arcs && r.faces == d.faces
  {
    d.(vertices := d.vertices + [v])
  }

  /** `push_arc`: one more arc at the end, the rest unchanged. */
  function PushArc(d: Dcel, a: Arc): (r: Dcel)
    ensures |r.arcs| == |d.arcs| + 1 && r.arcs[..|d.arcs|] == d.arcs && r.arcs[|d.arcs|] == a
    ensures r.vertices == d.vertices && r.faces == d.faces
  {
    d.(arcs := d.arcs + [a])
  }

  /** `push_face`: one more face at the end, the rest unchanged. */
  function PushFace(d: Dcel, f: Face): (r: Dcel)
    ensures |r.faces| == |d.faces| + 1 && r.faces[..|d.faces|] == d.faces && r.faces[|d.faces|] == f
    ensures r.vertices == d.vertices && r.arcs == d.arcs
  {
    d.(faces := d.faces + [f])
  }

  /** Every arc index an arc or face stores names an arc, as indexing the
      arc vector needs. */
  predicate Closed(d: Dcel) {
    (forall a :: 0 <= a < |d.arcs| ==>
       d.arcs[a].next < |d.arcs| && d.arcs[a].prev < |d.arcs| && d.arcs[a].twin < |d.arcs|) &&
    forall f :: 0 <= f < |d.faces| ==> d.faces[f].startArc < |d.arcs|
  }

  /** The arcs of a face cycle from `start`: each is followed by the next
      one in the list, the last by `start`, and `start` comes only first. */
  predicate FaceCycle(d: Dcel, start: nat, c: seq<nat>) {
    |c| > 0 && c[0] == start &&
    (forall k :: 0 <= k < |c| ==> c[k] < |d.arcs|) &&
    (forall k :: 0 < k < |c| ==> c[k] != start) &&
    (forall k :: 0 <= k < |c| - 1 ==> d.arcs[c[k]].next == c[k + 1]) &&
    d.arcs[c[|c| - 1]].next == start
  }

  // -------------------------------------------------------------- walk_face

  /** The loop of `walk_face` from the current arc `cur`, with the arcs
      `acc` listed so far; at most `fuel` more arcs. */
  function WalkFrom(d: Dcel, start: nat, cur: nat, acc: seq<nat>, fuel: nat): (r: Option<seq<nat>>)
    requires Closed(d) && cur < |d.arcs|
    ensures r.Some? ==> |acc| <= |r.value| && r.value[..|acc|] == acc
    ensures r.Some? && (forall k :: 0 <= k < |acc| ==> acc[k] < |d.arcs|) ==>
      forall k :: 0 <= k < |r.value| ==> r.value[k] < |d.arcs|
    decreases fuel
  {
    if cur == start then Some(acc)
    else if fuel == 0 then None
    else WalkFrom(d, start, d.arcs[cur].next, acc + [cur], fuel - 1)
  }

  /** `Dcel::walk_face`: the start arc, then `next` until the start arc comes
      back. The source loops for ever when it never comes back; the model
      gives up after as many steps as there are arcs, and says `None`. */
  function WalkFace(d: Dcel, f: nat): (r: Option<seq<nat>>)
    requires Closed(d) && f < |d.faces|
    ensures r.Some? ==> forall k :: 0 <= k < |r.value| ==> r.value[k] < |d.arcs|
  {
    var start := d.faces[f].startArc;
    WalkFrom(d, start, d.arcs[start].next, [start], |d.arcs|)
  }

  /** The walk from `cur` extends a partial cycle to a whole one. */
  lemma {:induction false} WalkFromCycle(d: Dcel, start: nat, cur: nat, acc: seq<nat>, fuel: nat)
    requires Closed(d) && cur < |d.arcs| && |acc| > 0 && acc[0] == start
    requires forall k :: 0 <= k < |acc| ==> acc[k] < |d.arcs|
    requires forall k :: 0 < k < |acc| ==> acc[k] != start
    requires forall k :: 0 <= k < |acc| - 1 ==> d.arcs[acc[k]].next == acc[k + 1]
    requires d.arcs[acc[|acc| - 1]].next == cur
    ensures WalkFrom(d, start, cur, acc, fuel).Some? ==> FaceCycle(d, start, WalkFrom(d, start, cur, acc, fuel).value)
    decreases fuel
  {
    if cur != start && fuel > 0 {
      var acc' := acc + [cur];
      assert forall k :: 0 <= k < |acc| ==> acc'[k] == acc[k];
      WalkFromCycle(d, start, d.arcs[cur].next, acc', fuel - 1);
    }
  }

  /** A walk that comes back is the face's cycle. */
  lemma WalkFaceCycle(d: Dcel, f: nat)
    requires Closed(d) && f < |d.faces|
    ensures WalkFace(d, f).Some? ==> FaceCycle(d, d.faces[f].startArc, WalkFace(d, f).value)
  {
    var start := d.faces[f].startArc;
    WalkFromCycle(d, start, d.arcs[start].next, [start], |d.arcs|);
  }

  /** A face cycle lists no arc twice. */
  lemma CycleDistinct(d: Dcel, start: nat, c: seq<nat>)
    requires FaceCycle(d, start, c)
    ensures Distinct(c)
  {
    forall i, j | 0 <= i < j < |c|
      ensures c[i] != c[j]
    {
      if c[i] == c[j] {
        CycleShift(d, start, c, i, j, |c| - 1 - j);
      }
    }
  }

  /** Equal entries have equal successors, as far as the list goes. */
  lemma {:induction false} CycleShift(d: Dcel, start: nat, c: seq<nat>, i: nat, j: nat, m: nat)
    requires FaceCycle(d, start, c) && i < j && j + m < |c| && c[i] == c[j]
    ensures c[i + m] == c[j + m]
    ensures j + m == |c| - 1 ==> c[i + m + 1] == start
    decreases m
  {
    if m > 0 {
      CycleShift(d, start, c, i, j, m - 1);
    }
  }

  /** Every face cycle is found: the walk comes back with exactly that
      cycle whenever it is no longer than there are arcs. */
  lemma {:induction false} WalkFromFinds(d: Dcel, start: nat, c: seq<nat>, n: nat, fuel: nat)
    requires Closed(d) && FaceCycle(d, start, c) && 1 <= n <= |c| && |c| - n <= fuel
    ensures WalkFrom(d, start, if n == |c| then start else c[n], c[..n], fuel) == Some(c)
    decreases |c| - n
  {
    if n < |c| {
      if n + 1 < |c| {
        assert d.arcs[c[n]].next == c[n + 1];
      }
      assert c[..n] + [c[n]] == c[..n + 1];
      WalkFromFinds(d, start, c, n + 1, fuel - 1);
    } else {
      assert c[..n] == c;
    }
  }

  lemma WalkFaceFinds(d: Dcel, f: nat, c: seq<nat>)
    requires Closed(d) && f < |d.faces| && FaceCycle(d, d.faces[f].startArc, c) && |c| <= |d.arcs|
    ensures WalkFace(d, f) == Some(c)
  {
    var start := d.faces[f].startArc;
    assert c[..1] == [start];
    if |c| > 1 {
      assert d.arcs[c[0]].next == c[1];
    }
    WalkFromFinds(d, start, c, 1, |d.arcs|);
  }

  // ---------------------------------------------------------- FaceIterator

  datatype FaceIter = FaceIter(start: nat, nextArc: Option<nat>)

  /** `FaceIterator::new` (and `Face::iter`): the start arc comes first. */
  function FaceIterNew(start: nat): (it: FaceIter)
    ensures it.nextArc == Some(start)
  {
    FaceIter(start, Some(start))
  }

  /** `FaceIterator::next`: yields the pending arc and moves to its `next`,
      unless that is the start arc; afterwards only `None`. */
  function FaceIterNext(d: Dcel, it: FaceIter): (r: (Option<nat>, FaceIter))
    requires Closed(d) && (it.nextArc.Some? ==> it.nextArc.value < |d.arcs|)
    ensures r.0 == it.nextArc && r.1.start == it.start
    ensures it.nextArc.None? ==> r.1 == it
    ensures it.nextArc.Some? ==>
      var n := d.arcs[it.nextArc.value].next;
      r.1.nextArc == (if n == it.start then None else Some(n))
  {
    match it.nextArc
    case None => (None, it)
    case Some(a) =>
      var n := d.arcs[a].next;
      (Some(a), it.(nextArc := if n != it.start then Some(n) else None))
  }

  /** Everything the iterator still yields, taking at most `fuel` items. */
  function FaceIterDrain(d: Dcel, it: FaceIter, fuel: nat): (r: Option<seq<nat>>)
    requires Closed(d) && (it.nextArc.Some? ==> it.nextArc.value < |d.arcs|)
    decreases fuel
  {
    if it.nextArc.None? then Some([])
    else if fuel == 0 then None
    else
      var step := FaceIterNext(d, it);
      match FaceIterDrain(d, step.1, fuel - 1)
      case None => None
      case Some(rest) => Some([step.0.value] + rest)
  }

  /** `Face::walk_face`: the ids the face's iterator yields. */
  function FaceWalk(d: Dcel, f: nat): (r: Option<seq<nat>>)
    requires Closed(d) && f < |d.faces|
  {
    FaceIterDrain(d, FaceIterNew(d.faces[f].startArc), |d.arcs| + 1)
  }

  lemma {:induction false} WalkFromIter(d: Dcel, start: nat, cur: nat, acc: seq<nat>, fuel: nat)
    requires Closed(d) && cur < |d.arcs| && cur != start
    ensures WalkFrom(d, start, cur, acc, fuel) ==
      (match FaceIterDrain(d, FaceIter(start, Some(cur)), fuel)
       case None => None
       case Some(rest) => Some(acc + rest))
    decreases fuel
  {
    if fuel > 0 {
      var n := d.arcs[cur].next;
      if n != start {
        WalkFromIter(d, start, n, acc + [cur], fuel - 1);
        assert FaceIterNext(d, FaceIter(start, Some(cur))) == (Some(cur), FaceIter(start, Some(n)));
        match FaceIterDrain(d, FaceIter(start, Some(n)), fuel - 1)
        case None =>
        case Some(rest) =>
          assert FaceIterDrain(d, FaceIter(start, Some(cur)), fuel) == Some([cur] + rest);
          assert acc + [cur] + rest == acc + ([cur] + rest);
      } else {
        assert FaceIterNext(d, FaceIter(start, Some(cur))) == (Some(cur), FaceIter(start, None));
        assert FaceIterDrain(d, FaceIter(start, None), fuel - 1) == Some([]);
        assert [cur] + [] == [cur];
      }
    }
  }

  /** The loop of `Dcel::walk_face` and the iterator of `Face::walk_face`
      list the same arcs. */
  lemma WalkFaceAgree(d: Dcel, f: nat)
    requires Closed(d) && f < |d.faces|
    ensures WalkFace(d, f) == FaceWalk(d, f)
  {
    var start := d.faces[f].startArc;
    var n := d.arcs[start].next;
    if n != start {
      WalkFromIter(d, start, n, [start], |d.arcs|);
      assert FaceIterNext(d, FaceIterNew(start)) == (Some(start), FaceIter(start, Some(n)));
    } else {
      assert FaceIterNext(d, FaceIterNew(start)) == (Some(start), FaceIter(start, None));
      assert FaceIterDrain(d, FaceIter(start, None), |d.arcs|) == Some([]);
      assert [start] + [] == [start];
    }
  }
}
