/** A sub-DCEL: a DCEL cut out of a main DCEL, with the maps from its local
    vertex and arc indices back to the main DCEL's, and the builder that
    assembles one arc by arc. */
module SubDcels {
  import opened Wrappers
  import opened SetSeqs
  import Dcels
  import DcelBuilders

  datatype SubDcel = SubDcel(dcel: Dcels.Dcel, sub: Dcels.Dcel, arcMapping: seq<nat>, vertexMapping: seq<nat>,
                             fakeRoot: Option<nat>, minLvl: Option<nat>)

  // ---------------------------------------------------------------------
  // Lookups

  /** `iter().position(|e| *e == a)`: the first index holding `a`. */
  function Position(xs: seq<nat>, a: nat): (r: Option<nat>)
    ensures r.Some? ==> r.value < |xs| && xs[r.value] == a && a !in xs[..r.value]
    ensures r.None? <==> a !in xs
  {
    if xs == [] then None
    else if xs[0] == a then Some(0)
    else match Position(xs[1..], a)
      case None => None
      case Some(i) =>
        assert xs[..i + 1] == [xs[0]] + xs[1..][..i];
        Some(i + 1)
  }

  /** `get_local_index`: where the main vertex `a` sits in the sub-DCEL. */
  function GetLocalIndex(s: SubDcel, a: nat): (r: Option<nat>)
    ensures r.Some? ==> r.value < |s.vertexMapping| && s.vertexMapping[r.value] == a
    ensures r.None? <==> a !in s.vertexMapping
  {
    Position(s.vertexMapping, a)
  }

  /** `get_original_arc`: `Vec::get`, so `None` past the end. */
  function GetOriginalArc(s: SubDcel, a: nat): (r: Option<nat>)
    ensures r.None? <==> a >= |s.arcMapping|
    ensures r.Some? ==> r.value in s.arcMapping
    ensures a < |s.arcMapping| ==> r == Some(s.arcMapping[a])
  {
    if a < |s.arcMapping| then Some(s.arcMapping[a]) else None
  }

  /** `get_original_vertex`: `Vec::get`, so `None` past the end. */
  function GetOriginalVertex(s: SubDcel, v: nat): (r: Option<nat>)
    ensures r.None? <==> v >= |s.vertexMapping|
    ensures r.Some? ==> r.value in s.vertexMapping
    ensures v < |s.vertexMapping| ==> r == Some(s.vertexMapping[v])
  {
    if v < |s.vertexMapping| then Some(s.vertexMapping[v]) else None
  }

  /** Looking a mapped vertex up and back gives the vertex again. */
  lemma OriginalOfLocal(s: SubDcel, a: nat)
    requires a in s.vertexMapping
    ensures GetLocalIndex(s, a).Some? && GetOriginalVertex(s, GetLocalIndex(s, a).value) == Some(a)
  {
  }

  /** With no vertex mapped twice, the local index of a vertex's original
      is that index again. */
  lemma LocalOfOriginal(s: SubDcel, v: nat)
    requires Distinct(s.vertexMapping) && v < |s.vertexMapping|
    ensures GetLocalIndex(s, s.vertexMapping[v]) == Some(v)
  {
    var r := GetLocalIndex(s, s.vertexMapping[v]).value;
    assert s.vertexMapping[r] == s.vertexMapping[v];
  }

  /** `get_untriangulated_arcs`: the arcs the sub-DCEL had before it was
      triangulated, the first `pre` of them. */
  function UntriangulatedArcs(sub: Dcels.Dcel, pre: nat): (r: seq<Dcels.Arc>)
    requires pre <= |sub.arcs|
    ensures |r| == pre
    ensures forall i :: 0 <= i < pre ==> r[i] == sub.arcs[i]
  {
    sub.arcs[..pre]
  }

  /** `get_triangulated_arcs`: the arcs triangulation added, so that the two
      lists together are all the arcs. */
  function TriangulatedArcs(sub: Dcels.Dcel, pre: nat): (r: seq<Dcels.Arc>)
    requires pre <= |sub.arcs|
    ensures UntriangulatedArcs(sub, pre) + r == sub.arcs
  {
    sub.arcs[pre..]
  }

  /** `was_triangulated`: there were arcs before triangulation. */
  function WasTriangulated(sub: Dcels.Dcel, pre: nat): (r: bool)
    requires pre <= |sub.arcs|
    ensures r <==> UntriangulatedArcs(sub, pre) != []
  {
    pre > 0
  }

  // ---------------------------------------------------------------------
  // The builder

  datatype SubBuilder = SubBuilder(dcel: Dcels.Dcel, builder: DcelBuilders.Builder, vertexMapping: seq<nat>,
                                   arcMapping: seq<nat>, lastVertexId: nat, lowestLevel: nat, vertexLevel: seq<nat>)

  /** The counter `last_vertex_id` is the length of the vertex mapping. */
  predicate Counted(sb: SubBuilder) {
    sb.lastVertexId == |sb.vertexMapping|
  }

  /** Every arc of the builder joins two mapped vertices. */
  ghost predicate Ends(b: DcelBuilders.Builder, n: nat) {
    forall a :: 0 <= a < |b.arcs| ==> b.arcs[a].src < n && b.arcs[a].dst < n
  }

  /** What the builder keeps true between calls. */
  ghost predicate Inv(sb: SubBuilder) {
    Counted(sb) && Distinct(sb.vertexMapping) && DcelBuilders.Wf(sb.builder) && DcelBuilders.Fresh(sb.builder) &&
    Ends(sb.builder, |sb.vertexMapping|)
  }

  /** `SubDcelBuilder::new`. */
  function NewBuilder(dcel: Dcels.Dcel, lowestLevel: nat): (r: SubBuilder)
    ensures Inv(r) && r.vertexMapping == [] && r.arcMapping == [] && r.dcel == dcel
  {
    SubBuilder(dcel, DcelBuilders.New(), [], [], 0, lowestLevel, [])
  }

  /** `push_vertex`: the local index of main vertex `v`, appending it to the
      mapping when it is not there yet. */
  function PushVertex(sb: SubBuilder, v: nat): (r: (SubBuilder, nat))
    ensures sb.vertexMapping <= r.0.vertexMapping && |r.0.vertexMapping| <= |sb.vertexMapping| + 1
    ensures v in sb.vertexMapping ==> r.0 == sb && r.1 == Position(sb.vertexMapping, v).value
    ensures v in r.0.vertexMapping
    ensures Counted(sb) ==> Counted(r.0) && r.1 < |r.0.vertexMapping| && r.0.vertexMapping[r.1] == v
    ensures Distinct(sb.vertexMapping) ==> Distinct(r.0.vertexMapping)
    ensures r.0.builder == sb.builder && r.0.dcel == sb.dcel
  {
    match Position(sb.vertexMapping, v)
    case Some(idx) => (sb, idx)
    case None =>
      var sb' := sb.(vertexMapping := sb.vertexMapping + [v], lastVertexId := sb.lastVertexId + 1);
      (sb', sb'.lastVertexId - 1)
  }

  /** `contains_arc`: whether the builder already holds the arc between the
      local copies of `a`'s ends. `get_neighborhood` of the builder is not
      part of this model and is passed in. */
  function ContainsArc(sb: SubBuilder, a: Dcels.Arc, neighborhood: nat -> seq<nat>): (r: bool)
    ensures r ==> a.src in sb.vertexMapping && a.dst in sb.vertexMapping
    ensures r ==> Position(sb.vertexMapping, a.src).value < |sb.builder.vertices|
  {
    if a.dst in sb.vertexMapping && a.src in sb.vertexMapping then
      var local := Position(sb.vertexMapping, a.src).value;
      if local >= |sb.builder.vertices| then false
      else Position(sb.vertexMapping, a.dst).value in neighborhood(local)
    else false
  }

  /** `push_arc`: maps both ends, then pushes the local arc. */
  function PushArc(sb: SubBuilder, a: Dcels.Arc): (r: SubBuilder)
    requires DcelBuilders.Wf(sb.builder)
    ensures |r.builder.arcs| == |sb.builder.arcs| + 1
    ensures a.src in r.vertexMapping && a.dst in r.vertexMapping
  {
    var (sb1, src) := PushVertex(sb, a.src);
    var (sb2, dst) := PushVertex(sb1, a.dst);
    sb2.(builder := DcelBuilders.PushArc(sb2.builder, src, dst))
  }

  /** Pushing an arc between two vertices below `n` keeps every arc's
      ends below `n`, and the new arc has the ends it was given. */
  lemma PushArcEnds(b: DcelBuilders.Builder, src: nat, dst: nat, n: nat)
    requires DcelBuilders.Wf(b) && Ends(b, n) && src < n && dst < n
    ensures Ends(DcelBuilders.PushArc(b, src, dst), n)
    ensures var last := DcelBuilders.PushArc(b, src, dst).arcs[|b.arcs|]; last.src == src && last.dst == dst
  {
    var r := DcelBuilders.PushArc(b, src, dst);
    var m := DcelBuilders.Append(b, src, dst);
    forall x | 0 <= x < |r.arcs|
      ensures r.arcs[x].src < n && r.arcs[x].dst < n
    {
      assert DcelBuilders.SameButTwin(r.arcs[x], m.arcs[x]);
    }
    assert DcelBuilders.SameButTwin(r.arcs[|b.arcs|], m.arcs[|b.arcs|]);
  }

  /** The pushed arc joins the local copies of `a`'s ends, and the
      invariant holds on. */
  lemma PushArcInv(sb: SubBuilder, a: Dcels.Arc)
    requires Inv(sb)
    ensures Inv(PushArc(sb, a))
    ensures var r := PushArc(sb, a); var last := r.builder.arcs[|sb.builder.arcs|];
            last.src < |r.vertexMapping| && last.dst < |r.vertexMapping| &&
            r.vertexMapping[last.src] == a.src && r.vertexMapping[last.dst] == a.dst
  {
    var (sb1, src) := PushVertex(sb, a.src);
    var (sb2, dst) := PushVertex(sb1, a.dst);
    var b := sb2.builder;
    var n := |sb2.vertexMapping|;
    assert Ends(b, n);
    DcelBuilders.PushArcWf(b, src, dst);
    DcelBuilders.PushArcFresh(b, src, dst);
    PushArcEnds(b, src, dst, n);
  }

  // ---------------------------------------------------------------------
  // Arc mapping

  predicate Joins(a: Dcels.Arc, s: nat, t: nat) {
    a.src == s && a.dst == t
  }

  /** The last main arc from `s` to `t`. */
  function LastMatch(main: seq<Dcels.Arc>, s: nat, t: nat): (r: Option<nat>)
    ensures r.Some? ==> r.value < |main| && Joins(main[r.value], s, t)
    ensures r.Some? ==> forall k :: r.value < k < |main| ==> !Joins(main[k], s, t)
    ensures r.None? ==> forall k :: 0 <= k < |main| ==> !Joins(main[k], s, t)
  {
    if main == [] then None
    else if Joins(main[|main| - 1], s, t) then Some(|main| - 1)
    else LastMatch(main[..|main| - 1], s, t)
  }

  /** The entry of `arc_mapping` for one sub-arc: the last main arc between
      the originals of its ends, `0` when there is none. */
  function MappedArc(main: seq<Dcels.Arc>, vm: seq<nat>, a: Dcels.Arc): nat
    requires a.src < |vm| && a.dst < |vm|
  {
    match LastMatch(main, vm[a.src], vm[a.dst])
    case Some(j) => j
    case None => 0
  }

  ghost predicate EndsIn(arcs: seq<Dcels.Arc>, n: nat) {
    forall i :: 0 <= i < |arcs| ==> arcs[i].src < n && arcs[i].dst < n
  }

  /** The nested loop of `build` that fills `arc_mapping`. */
  method ArcMappingOf(sub: seq<Dcels.Arc>, main: seq<Dcels.Arc>, vm: seq<nat>) returns (m: seq<nat>)
    requires EndsIn(sub, |vm|)
    ensures |m| == |sub|
    ensures forall i :: 0 <= i < |sub| ==> m[i] == MappedArc(main, vm, sub[i])
  {
    m := seq(|sub|, _ => 0);
    for i := 0 to |sub|
      invariant |m| == |sub|
      invariant forall k :: 0 <= k < i ==> m[k] == MappedArc(main, vm, sub[k])
      invariant forall k :: i <= k < |sub| ==> m[k] == 0
    {
      var s, t := vm[sub[i].src], vm[sub[i].dst];
      for j := 0 to |main|
        invariant |m| == |sub|
        invariant forall k :: 0 <= k < i ==> m[k] == MappedArc(main, vm, sub[k])
        invariant forall k :: i < k < |sub| ==> m[k] == 0
        invariant m[i] == match LastMatch(main[..j], s, t) case Some(x) => x case None => 0
      {
        assert main[..j + 1][..j] == main[..j];
        if main[j].src == s && main[j].dst == t {
          m := m[i := j];
        }
      }
      assert main[..|main|] == main;
    }
  }

  /** `build`: builds the local DCEL and maps each of its arcs to a main
      arc. `None` when the builder's `build` panics. */
  method Build(sb: SubBuilder, fakeRoot: Option<nat>, minLvl: Option<nat>) returns (r: Option<SubDcel>)
    requires Inv(sb)
    ensures r.None? <==> DcelBuilders.Build(sb.builder).None?
    ensures r.Some? ==> r.value.sub == DcelBuilders.Build(sb.builder).value
    ensures r.Some? ==> r.value.dcel == sb.dcel && r.value.vertexMapping == sb.vertexMapping
    ensures r.Some? ==> |r.value.arcMapping| == |r.value.sub.arcs|
    ensures r.Some? ==> EndsIn(r.value.sub.arcs, |sb.vertexMapping|)
    ensures r.Some? ==> forall i :: 0 <= i < |r.value.sub.arcs| ==>
              r.value.sub.arcs[i].src < |sb.vertexMapping| && r.value.sub.arcs[i].dst < |sb.vertexMapping| &&
              r.value.arcMapping[i] == MappedArc(sb.dcel.arcs, sb.vertexMapping, r.value.sub.arcs[i])
  {
    var built := DcelBuilders.Build(sb.builder);
    if built.None? {
      return None;
    }
    var d := built.value;
    BuiltEnds(sb, d);
    var m := ArcMappingOf(d.arcs, sb.dcel.arcs, sb.vertexMapping);
    r := Some(SubDcel(sb.dcel, d, m, sb.vertexMapping, fakeRoot, minLvl));
  }

  /** The built arcs keep their ends, so they join mapped vertices. */
  lemma BuiltEnds(sb: SubBuilder, d: Dcels.Dcel)
    requires Inv(sb) && DcelBuilders.Build(sb.builder) == Some(d)
    ensures EndsIn(d.arcs, |sb.vertexMapping|)
  {
    DcelBuilders.BuildSound(sb.builder, d);
  }
}
