/** The navigation and class-state engine of the web viewer (the graph
    component of `web/static/script.js`).

    Loaded data is turned into element ids with kind prefixes ("v", "a", "dv",
    "da"); four pointers (face, bag, ring, donut) step cyclically through
    their collections with -1 meaning "nothing selected", and every step
    lowlights the old item before highlighting the new one; four overlay
    toggles flip a flag and add or remove one class over a fixed id list. */
module Navigator {
  import opened Wrappers
  import opened Strings
  import opened ClassSurface

  // ------------------------------------------------------------------
  // Data as delivered by the back end

  datatype RawArc = RawArc(id: nat, source: nat, target: nat, isAdded: bool)
  datatype RawDualArc = RawDualArc(id: nat, source: nat, target: nat)
  datatype RawEdge = RawEdge(src: nat, dst: nat)
  /** A face, ring or donut: the ids of its arcs and of its vertices. */
  datatype RawGroup = RawGroup(arcs: seq<nat>, vertices: seq<nat>)
  datatype RawDonut = RawDonut(group: RawGroup, triangulatedArcs: seq<RawEdge>)
  datatype GraphData = GraphData(
    vertices: seq<nat>, arcs: seq<RawArc>,
    dualVertices: seq<nat>, dualArcs: seq<RawDualArc>, bags: seq<seq<nat>>,
    faces: seq<RawGroup>, rings: seq<RawGroup>, donuts: seq<RawDonut>,
    spanTree: seq<nat>, mis: seq<nat>)

  // ------------------------------------------------------------------
  // The component's state

  datatype Edge = Edge(id: string, source: string, target: string)
  datatype PrimalArc = PrimalArc(edge: Edge, isAdded: bool)
  datatype Group = Group(arcElements: seq<string>, vertElements: seq<string>)
  datatype Donut = Donut(group: Group, triangulatedArcs: seq<RawEdge>)

  /** The elements built by `load`; nothing changes them until the next load. */
  datatype Scene = Scene(
    vertices: seq<string>, arcs: seq<PrimalArc>,
    dualVertices: seq<string>, dualArcs: seq<Edge>,
    bags: seq<seq<string>>, faces: seq<Group>, rings: seq<Group>, donuts: seq<Donut>,
    spanningTree: seq<string>, misElements: seq<string>)

  /** `currentFace`, `currentBag`, `currentRing` and `currentDonut`. */
  datatype Pointers = Pointers(face: int, bag: int, ring: int, donut: int)

  datatype Flags = Flags(
    showTriangulatedDonutArcs: bool, spanningTreeVisible: bool,
    additionalEdgesHighlighted: bool, showingMIS: bool, tdVisible: bool)

  /** The component: its scene, pointers, overlay flags and, once drawn, its surface. */
  datatype View = View(scene: Scene, ptr: Pointers, flags: Flags, cy: Option<Surface>)

  /** The freshly constructed component: no elements and no surface. The
      constructor leaves the pointers and flags unset; they start here at
      the values `load` gives them, so that `Valid` holds from the start. */
  function Initial(): (v: View)
    ensures v.cy.None? && v.scene.vertices == [] && v.scene.arcs == []
    ensures v.ptr == Pointers(-1, -1, -1, -1)
    ensures !v.flags.showTriangulatedDonutArcs && !v.flags.spanningTreeVisible
    ensures !v.flags.additionalEdgesHighlighted && !v.flags.showingMIS && v.flags.tdVisible
    ensures Valid(v)
  {
    View(Scene([], [], [], [], [], [], [], [], [], []), Pointers(-1, -1, -1, -1),
         Flags(false, false, false, false, true), None)
  }

  // ------------------------------------------------------------------
  // Element ids

  /** The element id of object `n` of the kind named by `prefix`. */
  function Id(prefix: string, n: nat): (r: string)
    ensures |r| > |prefix| && r[..|prefix|] == prefix
  {
    prefix + NatToString(n)
  }

  lemma IdInjective(prefix: string, m: nat, n: nat)
    requires Id(prefix, m) == Id(prefix, n)
    ensures m == n
  {
    assert NatToString(m) == Id(prefix, m)[|prefix|..];
    assert NatToString(n) == Id(prefix, n)[|prefix|..];
    NatToStringInjective(m, n);
  }

  /** Vertex, arc, dual-vertex and dual-arc ids never collide. */
  lemma KindsDisjoint(m: nat, n: nat)
    ensures Id("v", m) != Id("a", n) && Id("v", m) != Id("dv", n) && Id("v", m) != Id("da", n)
    ensures Id("a", m) != Id("dv", n) && Id("a", m) != Id("da", n) && Id("dv", m) != Id("da", n)
  {
    assert Id("v", m)[0] == 'v' && Id("a", m)[0] == 'a' && Id("dv", m)[0] == 'd';
    assert Id("dv", m)[1] == 'v' && Id("da", n)[1] == 'a';
  }

  function Prefixed(prefix: string, ns: seq<nat>): (r: seq<string>)
    ensures |r| == |ns|
    ensures forall i :: 0 <= i < |ns| ==> r[i] == Id(prefix, ns[i])
  {
    seq(|ns|, i requires 0 <= i < |ns| => Id(prefix, ns[i]))
  }

  /** Prefixing keeps distinct ids distinct and equal ids equal. */
  lemma PrefixedDistinct(prefix: string, ns: seq<nat>, i: nat, j: nat)
    requires i < |ns| && j < |ns|
    ensures Prefixed(prefix, ns)[i] == Prefixed(prefix, ns)[j] <==> ns[i] == ns[j]
  {
    if Prefixed(prefix, ns)[i] == Prefixed(prefix, ns)[j] {
      IdInjective(prefix, ns[i], ns[j]);
    }
  }

  function ArcOf(a: RawArc): (r: PrimalArc)
    ensures r.edge.id == Id("a", a.id) && r.edge.source == Id("v", a.source)
    ensures r.edge.target == Id("v", a.target) && r.isAdded == a.isAdded
  {
    PrimalArc(Edge(Id("a", a.id), Id("v", a.source), Id("v", a.target)), a.isAdded)
  }

  function DualArcOf(a: RawDualArc): (r: Edge)
    ensures r.id == Id("da", a.id) && r.source == Id("dv", a.source) && r.target == Id("dv", a.target)
  {
    Edge(Id("da", a.id), Id("dv", a.source), Id("dv", a.target))
  }

  function GroupOf(g: RawGroup): (r: Group)
    ensures r.arcElements == Prefixed("a", g.arcs) && r.vertElements == Prefixed("v", g.vertices)
  {
    Group(Prefixed("a", g.arcs), Prefixed("v", g.vertices))
  }

  // ------------------------------------------------------------------
  // Loading and drawing

  /** Well-formed data has a dual vertex for every bag and every face. */
  predicate WellFormedData(d: GraphData) {
    |d.bags| <= |d.dualVertices| && |d.faces| <= |d.dualVertices|
  }

  /** The pointers are -1 or a valid index of their collection. */
  predicate PointersInRange(v: View) {
    -1 <= v.ptr.face < |v.scene.faces| && -1 <= v.ptr.bag < |v.scene.bags| &&
    -1 <= v.ptr.ring < |v.scene.rings| && -1 <= v.ptr.donut < |v.scene.donuts|
  }

  predicate Valid(v: View) {
    PointersInRange(v) && |v.scene.bags| <= |v.scene.dualVertices| && |v.scene.faces| <= |v.scene.dualVertices|
  }

  /** `load`: empty data changes nothing; otherwise every element is rebuilt
      with its prefixed id and every pointer and flag is reset. The surface is
      left as it is until the next `draw`. */
  function Load(v: View, data: Option<GraphData>): (r: View)
    ensures data.None? ==> r == v
    ensures data.Some? ==>
      r.ptr == Pointers(-1, -1, -1, -1) && r.flags == Flags(false, false, false, false, true) && r.cy == v.cy
    ensures data.Some? ==> r.scene == SceneOf(data.value)
    ensures data.Some? && WellFormedData(data.value) ==> Valid(r)
  {
    match data
    case None => v
    case Some(d) => View(SceneOf(d), Pointers(-1, -1, -1, -1), Flags(false, false, false, false, true), v.cy)
  }

  /** The elements `load` builds from `d`: every object under its prefixed
      id, in the order delivered. */
  function SceneOf(d: GraphData): (r: Scene)
    ensures r.vertices == Prefixed("v", d.vertices) && r.dualVertices == Prefixed("dv", d.dualVertices)
    ensures r.spanningTree == Prefixed("a", d.spanTree) && r.misElements == Prefixed("v", d.mis)
    ensures |r.arcs| == |d.arcs| && forall i :: 0 <= i < |d.arcs| ==> r.arcs[i] == ArcOf(d.arcs[i])
    ensures |r.dualArcs| == |d.dualArcs| && forall i :: 0 <= i < |d.dualArcs| ==> r.dualArcs[i] == DualArcOf(d.dualArcs[i])
    ensures |r.bags| == |d.bags| && forall i :: 0 <= i < |d.bags| ==> r.bags[i] == Prefixed("v", d.bags[i])
    ensures |r.faces| == |d.faces| && forall i :: 0 <= i < |d.faces| ==> r.faces[i] == GroupOf(d.faces[i])
    ensures |r.rings| == |d.rings| && forall i :: 0 <= i < |d.rings| ==> r.rings[i] == GroupOf(d.rings[i])
    ensures |r.donuts| == |d.donuts|
    ensures forall i :: 0 <= i < |d.donuts| ==>
      r.donuts[i] == Donut(GroupOf(d.donuts[i].group), d.donuts[i].triangulatedArcs)
  {
    Scene(
      Prefixed("v", d.vertices),
      seq(|d.arcs|, i requires 0 <= i < |d.arcs| => ArcOf(d.arcs[i])),
      Prefixed("dv", d.dualVertices),
      seq(|d.dualArcs|, i requires 0 <= i < |d.dualArcs| => DualArcOf(d.dualArcs[i])),
      seq(|d.bags|, i requires 0 <= i < |d.bags| => Prefixed("v", d.bags[i])),
      seq(|d.faces|, i requires 0 <= i < |d.faces| => GroupOf(d.faces[i])),
      seq(|d.rings|, i requires 0 <= i < |d.rings| => GroupOf(d.rings[i])),
      seq(|d.donuts|, i requires 0 <= i < |d.donuts| =>
        Donut(GroupOf(d.donuts[i].group), d.donuts[i].triangulatedArcs)),
      Prefixed("a", d.spanTree),
      Prefixed("v", d.mis))
  }

  function EdgeIds(es: seq<Edge>): (r: seq<string>)
    ensures |r| == |es| && forall i :: 0 <= i < |es| ==> r[i] == es[i].id
  {
    seq(|es|, i requires 0 <= i < |es| => es[i].id)
  }

  function PrimalEdges(arcs: seq<PrimalArc>): (r: seq<Edge>)
    ensures |r| == |arcs| && forall i :: 0 <= i < |arcs| ==> r[i] == arcs[i].edge
  {
    seq(|arcs|, i requires 0 <= i < |arcs| => arcs[i].edge)
  }

  /** The edges drawn for a donut's triangulated arcs: `ta-0`, `ta-1`, ... */
  function TriangulatedEdges(ts: seq<RawEdge>): (r: seq<Edge>)
    ensures |r| == |ts|
    ensures forall i :: 0 <= i < |ts| ==>
      r[i] == Edge("ta-" + NatToString(i), Id("v", ts[i].src), Id("v", ts[i].dst))
  {
    seq(|ts|, i requires 0 <= i < |ts| =>
      Edge("ta-" + NatToString(i), Id("v", ts[i].src), Id("v", ts[i].dst)))
  }

  /** `get_nodes`: the primal vertices followed by the dual vertices. */
  function GetNodes(v: View): (r: seq<string>)
    ensures |r| == |v.scene.vertices| + |v.scene.dualVertices|
    ensures r[..|v.scene.vertices|] == v.scene.vertices && r[|v.scene.vertices|..] == v.scene.dualVertices
  {
    v.scene.vertices + v.scene.dualVertices
  }

  /** `get_arcs`: primal arcs, then dual arcs, then - only while a donut is
      selected and its triangulated arcs are shown - the donut's triangulated arcs. */
  function GetArcs(v: View): (r: seq<Edge>)
    requires v.ptr.donut != -1 && v.flags.showTriangulatedDonutArcs ==> 0 <= v.ptr.donut < |v.scene.donuts|
    ensures |r| >= |v.scene.arcs| + |v.scene.dualArcs|
    ensures r[..|v.scene.arcs|] == PrimalEdges(v.scene.arcs) && r[|v.scene.arcs|..|v.scene.arcs| + |v.scene.dualArcs|] == v.scene.dualArcs
    ensures !(v.ptr.donut != -1 && v.flags.showTriangulatedDonutArcs) ==> |r| == |v.scene.arcs| + |v.scene.dualArcs|
    ensures v.ptr.donut != -1 && v.flags.showTriangulatedDonutArcs ==>
      r[|v.scene.arcs| + |v.scene.dualArcs|..] == TriangulatedEdges(v.scene.donuts[v.ptr.donut].triangulatedArcs)
  {
    var base := PrimalEdges(v.scene.arcs) + v.scene.dualArcs;
    assert base[..|v.scene.arcs|] == PrimalEdges(v.scene.arcs);
    if v.ptr.donut != -1 && v.flags.showTriangulatedDonutArcs then
      var r := base + TriangulatedEdges(v.scene.donuts[v.ptr.donut].triangulatedArcs);
      assert r[..|v.scene.arcs|] == base[..|v.scene.arcs|];
      assert r[|v.scene.arcs|..|v.scene.arcs| + |v.scene.dualArcs|] == base[|v.scene.arcs|..];
      r
    else
      base
  }

  /** The surface `draw` builds: every node and edge with no class, after
      which each dual vertex and dual arc gets `td`. */
  function DrawnSurface(ids: seq<string>, dualIds: seq<string>, dualArcIds: seq<string>): (s: Surface)
    ensures forall id :: id in s <==> id in ids
    ensures forall id :: id in s ==> s[id] == if id in dualIds || id in dualArcIds then {Td} else {}
  {
    AddClassAll(AddClassAll(Fresh(ids), dualIds, Td), dualArcIds, Td)
  }

  /** `draw`: nothing without vertices; otherwise a new surface over the
      nodes and edges of `get_nodes` and `get_arcs`. */
  function Draw(v: View): (r: View)
    requires v.ptr.donut != -1 && v.flags.showTriangulatedDonutArcs ==> 0 <= v.ptr.donut < |v.scene.donuts|
    ensures |v.scene.vertices| == 0 ==> r == v
    ensures r.scene == v.scene && r.ptr == v.ptr && r.flags == v.flags
    ensures |v.scene.vertices| > 0 ==> r.cy.Some?
    ensures |v.scene.vertices| > 0 ==>
      forall id :: id in r.cy.value <==> id in GetNodes(v) || id in EdgeIds(GetArcs(v))
    ensures |v.scene.vertices| > 0 ==>
      forall id :: id in r.cy.value ==>
        r.cy.value[id] == if id in v.scene.dualVertices || id in EdgeIds(v.scene.dualArcs) then {Td} else {}
  {
    if |v.scene.vertices| == 0 then v
    else v.(cy := Some(DrawnSurface(GetNodes(v) + EdgeIds(GetArcs(v)), v.scene.dualVertices, EdgeIds(v.scene.dualArcs))))
  }

  // ------------------------------------------------------------------
  // Stepping

  /** The cyclic stepper over -1 ("nothing selected"), 0, ..., max. */
  function Step(current: int, max: int, up: bool): (next: int)
    ensures -1 <= current <= max ==> -1 <= next <= max
    ensures -1 <= current <= max && up ==> next == (if current == max then -1 else current + 1)
    ensures -1 <= current <= max && !up ==> next == (if current == -1 then max else current - 1)
  {
    var c := if up then current + 1 else current - 1;
    if c == -2 then max else if c > max then -1 else c
  }

  datatype Call = LowlightCall(idx: nat) | HighlightCall(idx: nat)

  /** `highlightNext`: the new pointer, and the callbacks it makes in order. */
  function HighlightNext(current: int, max: int, up: bool): (res: (int, seq<Call>))
    ensures res.0 == Step(current, max, up)
    ensures forall i: nat :: LowlightCall(i) in res.1 <==> i == current
    ensures forall i: nat :: HighlightCall(i) in res.1 <==> i == res.0
    ensures |res.1| <= 2 && (|res.1| == 2 ==> res.1[0].LowlightCall? && res.1[1].HighlightCall?)
    ensures res.0 >= 0 ==> |res.1| > 0 && res.1[|res.1| - 1] == HighlightCall(res.0)
  {
    var next := Step(current, max, up);
    var low := if current >= 0 then [LowlightCall(current)] else [];
    var high := if next >= 0 then [HighlightCall(next)] else [];
    (next, low + high)
  }

  /** With an empty collection the pointer stays at -1 and no callback runs. */
  lemma EmptyCollectionStep(up: bool)
    ensures HighlightNext(-1, -1, up) == (-1, [])
  {
  }

  /** A step forward is undone by a step backward, and the other way round. */
  lemma StepInverse(current: int, max: int)
    requires -1 <= current <= max
    ensures Step(Step(current, max, true), max, false) == current
    ensures Step(Step(current, max, false), max, true) == current
  {
  }

  function StepN(current: int, max: int, up: bool, n: nat): int
    decreases n
  {
    if n == 0 then current else StepN(Step(current, max, up), max, up, n - 1)
  }

  lemma {:induction false} StepNAdd(current: int, max: int, up: bool, m: nat, n: nat)
    ensures StepN(current, max, up, m + n) == StepN(StepN(current, max, up, m), max, up, n)
    decreases m
  {
    if m > 0 {
      StepNAdd(Step(current, max, up), max, up, m - 1, n);
    }
  }

  lemma {:induction false} StepUpN(current: int, max: int, n: nat)
    requires -1 <= current && current + n <= max
    ensures StepN(current, max, true, n) == current + n
    decreases n
  {
    if n > 0 {
      StepUpN(current + 1, max, n - 1);
    }
  }

  lemma {:induction false} StepDownN(current: int, max: int, n: nat)
    requires current <= max && -1 <= current - n
    ensures StepN(current, max, false, n) == current - n
    decreases n
  {
    if n > 0 {
      StepDownN(current - 1, max, n - 1);
    }
  }

  /** `max + 2` steps in one direction visit every position and come back. */
  lemma FullCycle(current: int, max: int, up: bool)
    requires -1 <= current <= max
    ensures StepN(current, max, up, max + 2) == current
  {
    if up {
      var k := max - current;
      StepNAdd(current, max, true, k, 1);
      StepUpN(current, max, k);
      StepNAdd(current, max, true, k + 1, current + 1);
      StepUpN(-1, max, current + 1);
    } else {
      var k := current + 1;
      StepNAdd(current, max, false, k, 1);
      StepDownN(current, max, k);
      StepNAdd(current, max, false, k + 1, max - current);
      StepDownN(max, max, max - current);
    }
  }

  // ------------------------------------------------------------------
  // Highlighting one item

  /** `highlightFace` on the face's dual vertex, arcs and vertices. */
  function HighlightFace(s: Surface, dv: string, arcs: seq<string>, verts: seq<string>): (r: Surface)
    ensures r.Keys == s.Keys
    ensures forall id :: id in r ==> (r[id] ==
      if id == dv then s[id] - {Td} + {Highlighted}
      else if id in arcs || id in verts then s[id] + {Highlighted}
      else s[id])
  {
    var s1 := RemoveClass(s, dv, Td);
    var s2 := AddClass(s1, dv, Highlighted);
    var s3 := AddClassAll(s2, arcs, Highlighted);
    AddClassAll(s3, verts, Highlighted)
  }

  /** `lowlightFace`. */
  function LowlightFace(s: Surface, dv: string, arcs: seq<string>, verts: seq<string>): (r: Surface)
    ensures r.Keys == s.Keys
    ensures forall id :: id in r ==> (r[id] ==
      if id == dv then s[id] - {Highlighted} + {Td}
      else if id in arcs || id in verts then s[id] - {Highlighted}
      else s[id])
  {
    var s1 := RemoveClass(s, dv, Highlighted);
    var s2 := AddClass(s1, dv, Td);
    var s3 := RemoveClassAll(s2, arcs, Highlighted);
    var r := RemoveClassAll(s3, verts, Highlighted);
    LowlightFaceCases(s, dv, arcs, verts, s2, s3, r);
    r
  }

  lemma LowlightFaceCases(s: Surface, dv: string, arcs: seq<string>, verts: seq<string>,
                          s2: Surface, s3: Surface, r: Surface)
    requires s2.Keys == s.Keys && s3.Keys == s.Keys && r.Keys == s.Keys
    requires forall id :: id in s2 ==> s2[id] == if id == dv then s[id] - {Highlighted} + {Td} else s[id]
    requires forall id :: id in s3 ==> s3[id] == if id in arcs then s2[id] - {Highlighted} else s2[id]
    requires forall id :: id in r ==> r[id] == if id in verts then s3[id] - {Highlighted} else s3[id]
    ensures forall id :: id in r ==> (r[id] ==
      if id == dv then s[id] - {Highlighted} + {Td}
      else if id in arcs || id in verts then s[id] - {Highlighted}
      else s[id])
  {
    forall id | id in r
      ensures r[id] == if id == dv then s[id] - {Highlighted} + {Td}
        else if id in arcs || id in verts then s[id] - {Highlighted} else s[id]
    {
      var a := s[id] - {Highlighted};
      assert a - {Highlighted} == a;
      if id == dv {
        assert a + {Td} - {Highlighted} == a + {Td};
      }
    }
  }

  /** `highlightBag` on the bag's vertex ids and its dual vertex. */
  function HighlightBag(s: Surface, dv: string, bag: seq<string>): (r: Surface)
    ensures r.Keys == s.Keys
    ensures forall id :: id in r ==> (r[id] ==
      if id == dv then s[id] - {Td} + {Bag}
      else if id in bag then s[id] + {Bag}
      else s[id])
  {
    var s1 := AddClassAll(s, bag, Bag);
    var s2 := RemoveClass(s1, dv, Td);
    AddClass(s2, dv, Bag)
  }

  /** `lowlightBag`. */
  function LowlightBag(s: Surface, dv: string, bag: seq<string>): (r: Surface)
    ensures r.Keys == s.Keys
    ensures forall id :: id in r ==> (r[id] ==
      if id == dv then s[id] - {Bag} + {Td}
      else if id in bag then s[id] - {Bag}
      else s[id])
  {
    var s1 := RemoveClassAll(s, bag, Bag);
    var s2 := RemoveClass(s1, dv, Bag);
    AddClass(s2, dv, Td)
  }

  /** `highlightRing` (class `blue`) and `highlightDonut` (class `red`). */
  function HighlightGroup(s: Surface, g: Group, c: CssClass): (r: Surface)
    ensures r.Keys == s.Keys
    ensures forall id :: id in r ==> (r[id] ==
      if id in g.arcElements || id in g.vertElements then s[id] + {c} else s[id])
  {
    AddClassAll(AddClassAll(s, g.arcElements, c), g.vertElements, c)
  }

  /** `lowlightRing` and `lowlightDonut`. */
  function LowlightGroup(s: Surface, g: Group, c: CssClass): (r: Surface)
    ensures r.Keys == s.Keys
    ensures forall id :: id in r ==> (r[id] ==
      if id in g.arcElements || id in g.vertElements then s[id] - {c} else s[id])
  {
    RemoveClassAll(RemoveClassAll(s, g.arcElements, c), g.vertElements, c)
  }

  lemma HighlightFaceAt(s: Surface, dv: string, arcs: seq<string>, verts: seq<string>, id: string, on: Surface)
    requires id in s && on == HighlightFace(s, dv, arcs, verts)
    ensures on[id] - {Td, Highlighted} == s[id] - {Td, Highlighted}
    ensures id in [dv] + arcs + verts ==> Highlighted in on[id]
    ensures id !in [dv] + arcs + verts ==> on[id] == s[id]
    ensures id == dv ==> Td !in on[id]
  {
    InConcat3(dv, arcs, verts, id);
    var listed := id in arcs || id in verts;
    assert on[id] == if id == dv then s[id] - {Td} + {Highlighted} else if listed then s[id] + {Highlighted} else s[id];
    LitClasses(s[id], on[id], id == dv, listed);
  }

  /** One id's classes after `highlightFace`: `Td` swapped for `Highlighted`
      on the dual vertex, `Highlighted` added on a listed id. */
  lemma LitClasses(a: set<CssClass>, e: set<CssClass>, isDual: bool, listed: bool)
    requires e == if isDual then a - {Td} + {Highlighted} else if listed then a + {Highlighted} else a
    ensures e - {Td, Highlighted} == a - {Td, Highlighted}
    ensures (isDual || listed) ==> Highlighted in e
    ensures isDual ==> Td !in e
  {
  }

  lemma LowlightFaceAt(s: Surface, dv: string, arcs: seq<string>, verts: seq<string>, id: string, off: Surface)
    requires id in s && off == LowlightFace(s, dv, arcs, verts)
    ensures off[id] - {Td, Highlighted} == s[id] - {Td, Highlighted}
    ensures id in [dv] + arcs + verts ==> Highlighted !in off[id]
    ensures id !in [dv] + arcs + verts ==> off[id] == s[id]
    ensures id == dv ==> Td in off[id]
  {
    InConcat3(dv, arcs, verts, id);
    var listed := id in arcs || id in verts;
    assert off[id] == if id == dv then s[id] - {Highlighted} + {Td} else if listed then s[id] - {Highlighted} else s[id];
    UnlitClasses(s[id], off[id], id == dv, listed);
  }

  /** One id's classes after `lowlightFace`. */
  lemma UnlitClasses(a: set<CssClass>, e: set<CssClass>, isDual: bool, listed: bool)
    requires e == if isDual then a - {Highlighted} + {Td} else if listed then a - {Highlighted} else a
    ensures e - {Td, Highlighted} == a - {Td, Highlighted}
    ensures (isDual || listed) ==> Highlighted !in e
    ensures isDual ==> Td in e
  {
  }

  lemma InConcat2(dv: string, bag: seq<string>, id: string)
    ensures id in [dv] + bag <==> id == dv || id in bag
  {
  }

  lemma InConcat3(dv: string, arcs: seq<string>, verts: seq<string>, id: string)
    ensures id in [dv] + arcs + verts <==> id == dv || id in arcs || id in verts
  {
  }

  lemma HighlightFaceEffects(s: Surface, dv: string, arcs: seq<string>, verts: seq<string>)
    ensures SameExcept(s, HighlightFace(s, dv, arcs, verts), {Td, Highlighted})
    ensures forall id :: id in s && id !in [dv] + arcs + verts ==> HighlightFace(s, dv, arcs, verts)[id] == s[id]
    ensures ClassIs(HighlightFace(s, dv, arcs, verts), [dv] + arcs + verts, Highlighted, true)
    ensures dv in s ==> Td !in HighlightFace(s, dv, arcs, verts)[dv]
  {
    forall id | id in s {
      HighlightFaceAt(s, dv, arcs, verts, id, HighlightFace(s, dv, arcs, verts));
    }
  }

  lemma LowlightFaceEffects(s: Surface, dv: string, arcs: seq<string>, verts: seq<string>)
    ensures SameExcept(s, LowlightFace(s, dv, arcs, verts), {Td, Highlighted})
    ensures forall id :: id in s && id !in [dv] + arcs + verts ==> LowlightFace(s, dv, arcs, verts)[id] == s[id]
    ensures ClassIs(LowlightFace(s, dv, arcs, verts), [dv] + arcs + verts, Highlighted, false)
    ensures dv in s ==> Td in LowlightFace(s, dv, arcs, verts)[dv]
  {
    forall id | id in s {
      LowlightFaceAt(s, dv, arcs, verts, id, LowlightFace(s, dv, arcs, verts));
    }
  }

  lemma HighlightBagEffects(s: Surface, dv: string, bag: seq<string>)
    ensures SameExcept(s, HighlightBag(s, dv, bag), {Td, Bag})
    ensures forall id :: id in s && id !in [dv] + bag ==> HighlightBag(s, dv, bag)[id] == s[id]
    ensures ClassIs(HighlightBag(s, dv, bag), [dv] + bag, Bag, true)
    ensures dv in s ==> Td !in HighlightBag(s, dv, bag)[dv]
  {
  }

  lemma LowlightBagEffects(s: Surface, dv: string, bag: seq<string>)
    ensures SameExcept(s, LowlightBag(s, dv, bag), {Td, Bag})
    ensures forall id :: id in s && id !in [dv] + bag ==> LowlightBag(s, dv, bag)[id] == s[id]
    ensures ClassIs(LowlightBag(s, dv, bag), [dv] + bag, Bag, false)
    ensures dv in s ==> Td in LowlightBag(s, dv, bag)[dv]
  {
  }

  lemma HighlightGroupEffects(s: Surface, g: Group, c: CssClass)
    ensures SameExcept(s, HighlightGroup(s, g, c), {c})
    ensures forall id :: id in s && id !in g.arcElements + g.vertElements ==> HighlightGroup(s, g, c)[id] == s[id]
    ensures ClassIs(HighlightGroup(s, g, c), g.arcElements + g.vertElements, c, true)
  {
  }

  lemma LowlightGroupEffects(s: Surface, g: Group, c: CssClass)
    ensures SameExcept(s, LowlightGroup(s, g, c), {c})
    ensures forall id :: id in s && id !in g.arcElements + g.vertElements ==> LowlightGroup(s, g, c)[id] == s[id]
    ensures ClassIs(LowlightGroup(s, g, c), g.arcElements + g.vertElements, c, false)
  {
  }

  // ------------------------------------------------------------------
  // Highlighting by kind

  datatype Kind = FaceKind | BagKind | RingKind | DonutKind

  function Count(sc: Scene, k: Kind): nat {
    match k
    case FaceKind => |sc.faces|
    case BagKind => |sc.bags|
    case RingKind => |sc.rings|
    case DonutKind => |sc.donuts|
  }

  function Current(v: View, k: Kind): int {
    match k
    case FaceKind => v.ptr.face
    case BagKind => v.ptr.bag
    case RingKind => v.ptr.ring
    case DonutKind => v.ptr.donut
  }

  function WithCurrent(v: View, k: Kind, c: int): (r: View)
    ensures Current(r, k) == c
    ensures forall j :: j != k ==> Current(r, j) == Current(v, j)
    ensures Unmoved(v, r) && r.cy == v.cy
  {
    match k
    case FaceKind => v.(ptr := v.ptr.(face := c))
    case BagKind => v.(ptr := v.ptr.(bag := c))
    case RingKind => v.(ptr := v.ptr.(ring := c))
    case DonutKind => v.(ptr := v.ptr.(donut := c))
  }

  /** Item `idx` of kind `k` exists, and so does its dual vertex where one is used. */
  predicate Fits(sc: Scene, k: Kind, idx: nat) {
    idx < Count(sc, k) && ((k.FaceKind? || k.BagKind?) ==> idx < |sc.dualVertices|)
  }

  /** The class names that highlighting kind `k` adds or removes. */
  function Touched(k: Kind): set<CssClass> {
    match k
    case FaceKind => {Td, Highlighted}
    case BagKind => {Td, Bag}
    case RingKind => {Blue}
    case DonutKind => {Red}
  }

  /** The class that marks a highlighted item of kind `k`. */
  function Mark(k: Kind): CssClass {
    match k
    case FaceKind => Highlighted
    case BagKind => Bag
    case RingKind => Blue
    case DonutKind => Red
  }

  /** The ids item `idx` of kind `k` highlights. */
  function Members(sc: Scene, k: Kind, idx: nat): seq<string>
    requires Fits(sc, k, idx)
  {
    match k
    case FaceKind => [sc.dualVertices[idx]] + sc.faces[idx].arcElements + sc.faces[idx].vertElements
    case BagKind => [sc.dualVertices[idx]] + sc.bags[idx]
    case RingKind => sc.rings[idx].arcElements + sc.rings[idx].vertElements
    case DonutKind => sc.donuts[idx].group.arcElements + sc.donuts[idx].group.vertElements
  }

  /** The dual vertex whose `td` class a face or bag swaps out. */
  function DualOf(sc: Scene, k: Kind, idx: nat): Option<string>
    requires Fits(sc, k, idx)
  {
    if k.FaceKind? || k.BagKind? then Some(sc.dualVertices[idx]) else None
  }

  /** The item is shown highlighted: every member carries the mark, and a
      face's or bag's dual vertex has lost `td`. */
  predicate Lit(sc: Scene, k: Kind, idx: nat, s: Surface)
    requires Fits(sc, k, idx)
  {
    var dv := DualOf(sc, k, idx);
    ClassIs(s, Members(sc, k, idx), Mark(k), true) &&
    (dv.Some? && dv.value in s ==> Td !in s[dv.value])
  }

  /** The item is shown plainly: no member carries the mark, and a face's or
      bag's dual vertex carries `td`. */
  predicate Dark(sc: Scene, k: Kind, idx: nat, s: Surface)
    requires Fits(sc, k, idx)
  {
    var dv := DualOf(sc, k, idx);
    ClassIs(s, Members(sc, k, idx), Mark(k), false) &&
    (dv.Some? && dv.value in s ==> Td in s[dv.value])
  }

  /** The highlight callback of kind `k` for item `idx`. */
  function Highlight(sc: Scene, k: Kind, idx: nat, s: Surface): (r: Surface)
    requires Fits(sc, k, idx)
    ensures SameExcept(s, r, Touched(k))
    ensures forall id :: id in s && id !in Members(sc, k, idx) ==> r[id] == s[id]
    ensures Lit(sc, k, idx, r)
  {
    match k
    case FaceKind =>
      HighlightFaceEffects(s, sc.dualVertices[idx], sc.faces[idx].arcElements, sc.faces[idx].vertElements);
      HighlightFace(s, sc.dualVertices[idx], sc.faces[idx].arcElements, sc.faces[idx].vertElements)
    case BagKind =>
      HighlightBagEffects(s, sc.dualVertices[idx], sc.bags[idx]);
      HighlightBag(s, sc.dualVertices[idx], sc.bags[idx])
    case RingKind =>
      HighlightGroupEffects(s, sc.rings[idx], Blue);
      HighlightGroup(s, sc.rings[idx], Blue)
    case DonutKind =>
      HighlightGroupEffects(s, sc.donuts[idx].group, Red);
      HighlightGroup(s, sc.donuts[idx].group, Red)
  }

  /** The lowlight callback of kind `k` for item `idx`. */
  function Lowlight(sc: Scene, k: Kind, idx: nat, s: Surface): (r: Surface)
    requires Fits(sc, k, idx)
    ensures SameExcept(s, r, Touched(k))
    ensures forall id :: id in s && id !in Members(sc, k, idx) ==> r[id] == s[id]
    ensures Dark(sc, k, idx, r)
  {
    match k
    case FaceKind =>
      LowlightFaceEffects(s, sc.dualVertices[idx], sc.faces[idx].arcElements, sc.faces[idx].vertElements);
      LowlightFace(s, sc.dualVertices[idx], sc.faces[idx].arcElements, sc.faces[idx].vertElements)
    case BagKind =>
      LowlightBagEffects(s, sc.dualVertices[idx], sc.bags[idx]);
      LowlightBag(s, sc.dualVertices[idx], sc.bags[idx])
    case RingKind =>
      LowlightGroupEffects(s, sc.rings[idx], Blue);
      LowlightGroup(s, sc.rings[idx], Blue)
    case DonutKind =>
      LowlightGroupEffects(s, sc.donuts[idx].group, Red);
      LowlightGroup(s, sc.donuts[idx].group, Red)
  }

  /** Highlighting a plainly shown item and lowlighting it again restores
      every class set on the surface. */
  lemma HighlightLowlightRestores(sc: Scene, k: Kind, idx: nat, s: Surface)
    requires Fits(sc, k, idx) && Dark(sc, k, idx, s)
    ensures Lowlight(sc, k, idx, Highlight(sc, k, idx, s)) == s
  {
    match k
    case FaceKind =>
      FaceRestores(s, sc.dualVertices[idx], sc.faces[idx].arcElements, sc.faces[idx].vertElements);
    case BagKind =>
      BagRestores(s, sc.dualVertices[idx], sc.bags[idx]);
    case RingKind =>
      GroupRestores(s, sc.rings[idx], Blue);
    case DonutKind =>
      GroupRestores(s, sc.donuts[idx].group, Red);
  }

  /** One id's classes through a highlight and the matching lowlight: the
      mark `x` and `Td` are put back as they were. */
  lemma MarkRoundTrip(a: set<CssClass>, e: set<CssClass>, f: set<CssClass>, x: CssClass, isDual: bool, listed: bool)
    requires x != Td
    requires e == if isDual then a - {Td} + {x} else if listed then a + {x} else a
    requires f == if isDual then e - {x} + {Td} else if listed then e - {x} else e
    requires (isDual || listed) ==> x !in a
    requires isDual ==> Td in a
    ensures f == a
  {
  }

  lemma FaceRestoresAt(s: Surface, dv: string, arcs: seq<string>, verts: seq<string>, id: string, h: Surface, l: Surface)
    requires id in s && h == HighlightFace(s, dv, arcs, verts) && l == LowlightFace(h, dv, arcs, verts)
    requires (id == dv || id in arcs || id in verts) ==> Highlighted !in s[id]
    requires id == dv ==> Td in s[id]
    ensures l[id] == s[id]
  {
    var listed := id in arcs || id in verts;
    assert h[id] == if id == dv then s[id] - {Td} + {Highlighted} else if listed then s[id] + {Highlighted} else s[id];
    assert l[id] == if id == dv then h[id] - {Highlighted} + {Td} else if listed then h[id] - {Highlighted} else h[id];
    MarkRoundTrip(s[id], h[id], l[id], Highlighted, id == dv, listed);
  }

  lemma FaceRestores(s: Surface, dv: string, arcs: seq<string>, verts: seq<string>)
    requires ClassIs(s, [dv] + arcs + verts, Highlighted, false) && (dv in s ==> Td in s[dv])
    ensures LowlightFace(HighlightFace(s, dv, arcs, verts), dv, arcs, verts) == s
  {
    var h := HighlightFace(s, dv, arcs, verts);
    var l := LowlightFace(h, dv, arcs, verts);
    forall id | id in s
      ensures l[id] == s[id]
    {
      InConcat3(dv, arcs, verts, id);
      FaceRestoresAt(s, dv, arcs, verts, id, h, l);
    }
  }

  lemma BagRestoresAt(s: Surface, dv: string, bag: seq<string>, id: string, h: Surface, l: Surface)
    requires id in s && h == HighlightBag(s, dv, bag) && l == LowlightBag(h, dv, bag)
    requires (id == dv || id in bag) ==> Bag !in s[id]
    requires id == dv ==> Td in s[id]
    ensures l[id] == s[id]
  {
    assert h[id] == if id == dv then s[id] - {Td} + {Bag} else if id in bag then s[id] + {Bag} else s[id];
    assert l[id] == if id == dv then h[id] - {Bag} + {Td} else if id in bag then h[id] - {Bag} else h[id];
    MarkRoundTrip(s[id], h[id], l[id], Bag, id == dv, id in bag);
  }

  lemma BagRestores(s: Surface, dv: string, bag: seq<string>)
    requires ClassIs(s, [dv] + bag, Bag, false) && (dv in s ==> Td in s[dv])
    ensures LowlightBag(HighlightBag(s, dv, bag), dv, bag) == s
  {
    var h := HighlightBag(s, dv, bag);
    var l := LowlightBag(h, dv, bag);
    forall id | id in s
      ensures l[id] == s[id]
    {
      InConcat2(dv, bag, id);
      BagRestoresAt(s, dv, bag, id, h, l);
    }
  }

  lemma GroupRestoresAt(s: Surface, g: Group, c: CssClass, id: string)
    requires id in s
    requires id in g.arcElements || id in g.vertElements ==> c !in s[id]
    ensures LowlightGroup(HighlightGroup(s, g, c), g, c)[id] == s[id]
  {
  }

  lemma GroupRestores(s: Surface, g: Group, c: CssClass)
    requires ClassIs(s, g.arcElements + g.vertElements, c, false)
    ensures LowlightGroup(HighlightGroup(s, g, c), g, c) == s
  {
    forall id | id in s
      ensures LowlightGroup(HighlightGroup(s, g, c), g, c)[id] == s[id]
    {
      if id in g.arcElements || id in g.vertElements {
        assert id in g.arcElements + g.vertElements;
      }
      GroupRestoresAt(s, g, c, id);
    }
  }


  /** Applies the callbacks of one `highlightNext` call in order. */
  /** One callback: lowlight or highlight the item it names. */
  function ApplyCall(sc: Scene, k: Kind, c: Call, s: Surface): (r: Surface)
    requires Fits(sc, k, c.idx)
    ensures SameExcept(s, r, Touched(k))
    ensures c.HighlightCall? ==> Lit(sc, k, c.idx, r)
    ensures c.LowlightCall? ==> Dark(sc, k, c.idx, r)
  {
    match c
    case LowlightCall(i) => Lowlight(sc, k, i, s)
    case HighlightCall(i) => Highlight(sc, k, i, s)
  }

  function ApplyCalls(sc: Scene, k: Kind, calls: seq<Call>, s: Surface): (r: Surface)
    requires forall c :: c in calls ==> Fits(sc, k, c.idx)
    ensures SameExcept(s, r, Touched(k))
    decreases |calls|
  {
    if calls == [] then s
    else
      var s1 := ApplyCall(sc, k, calls[0], s);
      var r := ApplyCalls(sc, k, calls[1..], s1);
      SameExceptTrans(s, s1, r, Touched(k));
      r
  }

  /** Since the highlight callback runs last, the new item is fully
      highlighted even where it shares elements with the old one. */
  lemma {:induction false} ApplyCallsEndsLit(sc: Scene, k: Kind, calls: seq<Call>, s: Surface, idx: nat)
    requires forall c :: c in calls ==> Fits(sc, k, c.idx)
    requires calls != [] && calls[|calls| - 1] == HighlightCall(idx)
    ensures Fits(sc, k, idx) && Lit(sc, k, idx, ApplyCalls(sc, k, calls, s))
    decreases |calls|
  {
    assert calls[|calls| - 1] in calls;
    var s1 := ApplyCall(sc, k, calls[0], s);
    if |calls| > 1 {
      assert forall c :: c in calls[1..] ==> c in calls;
      ApplyCallsEndsLit(sc, k, calls[1..], s1, idx);
    } else {
      assert calls[0] == HighlightCall(idx);
    }
  }

  /** Every item a call names exists. */
  lemma CallsFit(v: View, k: Kind, up: bool)
    requires Valid(v)
    ensures var calls := HighlightNext(Current(v, k), Count(v.scene, k) - 1, up).1;
      forall c :: c in calls ==> Fits(v.scene, k, c.idx)
  {
    var calls := HighlightNext(Current(v, k), Count(v.scene, k) - 1, up).1;
    forall c | c in calls
      ensures Fits(v.scene, k, c.idx)
    {
      if c.LowlightCall? {
        assert LowlightCall(c.idx) in calls;
      } else {
        assert HighlightCall(c.idx) in calls;
      }
    }
  }

  /** The collections and the overlay flags are the same in both views. */
  predicate Unmoved(v: View, r: View) {
    r.scene == v.scene && r.flags == v.flags
  }

  /** The surface after the callbacks of one step of kind `k`. */
  function StepSurface(v: View, k: Kind, up: bool): (r: Surface)
    requires Valid(v) && v.cy.Some?
    ensures SameExcept(v.cy.value, r, Touched(k))
  {
    var res := HighlightNext(Current(v, k), Count(v.scene, k) - 1, up);
    CallsFit(v, k, up);
    ApplyCalls(v.scene, k, res.1, v.cy.value)
  }

  /** `highlightNextFace`, `highlightNextBag`, `highlightNextRing`,
      `highlightNextDonut`: step the kind's pointer over its collection and
      run the callbacks on the surface. */
  function HighlightNextOf(v: View, k: Kind, up: bool): (r: View)
    requires Valid(v) && v.cy.Some?
    ensures Valid(r) && r.cy.Some? && Unmoved(v, r)
    ensures Current(r, k) == Step(Current(v, k), Count(v.scene, k) - 1, up)
    ensures forall j :: j != k ==> Current(r, j) == Current(v, j)
    ensures SameExcept(v.cy.value, r.cy.value, Touched(k))
  {
    var c := Step(Current(v, k), Count(v.scene, k) - 1, up);
    WithCurrentValid(v, k, c);
    var w := WithCurrent(v, k, c);
    w.(cy := Some(StepSurface(v, k, up)))
  }

  lemma WithCurrentValid(v: View, k: Kind, c: int)
    requires Valid(v) && -1 <= c < Count(v.scene, k)
    ensures Valid(WithCurrent(v, k, c))
  {
    match k
    case FaceKind =>
    case BagKind =>
    case RingKind =>
    case DonutKind =>
  }

  /** After a step the newly selected item is fully highlighted, even where
      it shares elements with the item just lowlighted. */
  lemma StepLightsNewItem(v: View, k: Kind, up: bool)
    requires Valid(v) && v.cy.Some?
    ensures var r := HighlightNextOf(v, k, up);
      Current(r, k) >= 0 ==> Fits(r.scene, k, Current(r, k)) && Lit(r.scene, k, Current(r, k), r.cy.value)
  {
    var r := HighlightNextOf(v, k, up);
    var res := HighlightNext(Current(v, k), Count(v.scene, k) - 1, up);
    var next, calls := res.0, res.1;
    CallsFit(v, k, up);
    if next >= 0 {
      ApplyCallsEndsLit(v.scene, k, calls, v.cy.value, next);
    }
  }

  // ------------------------------------------------------------------
  // Overlay toggles

  /** The ids of the primal arcs the triangulation added. */
  function AddedArcIds(arcs: seq<PrimalArc>): (r: seq<string>)
    ensures forall id :: id in r <==> exists a :: a in arcs && a.isAdded && a.edge.id == id
  {
    if arcs == [] then []
    else
      var rest := AddedArcIds(arcs[1..]);
      assert forall a :: a in arcs <==> a == arcs[0] || a in arcs[1..];
      if arcs[0].isAdded then [arcs[0].edge.id] + rest else rest
  }

  /** `toggleMIS`. */
  function ToggleMIS(v: View): (r: View)
    requires v.cy.Some?
    ensures r == v.(flags := v.flags.(showingMIS := !v.flags.showingMIS), cy := r.cy) && r.cy.Some?
    ensures SameExcept(v.cy.value, r.cy.value, {Yellow})
    ensures ClassIs(r.cy.value, v.scene.misElements, Yellow, r.flags.showingMIS)
  {
    var on := !v.flags.showingMIS;
    var s := if on then AddClassAll(v.cy.value, v.scene.misElements, Yellow)
             else RemoveClassAll(v.cy.value, v.scene.misElements, Yellow);
    v.(flags := v.flags.(showingMIS := on), cy := Some(s))
  }

  /** `toggleAdditionalEdges`: `green` on the arcs flagged as added. */
  function ToggleAdditionalEdges(v: View): (r: View)
    requires v.cy.Some?
    ensures r == v.(flags := v.flags.(additionalEdgesHighlighted := !v.flags.additionalEdgesHighlighted), cy := r.cy) && r.cy.Some?
    ensures SameExcept(v.cy.value, r.cy.value, {Green})
    ensures ClassIs(r.cy.value, AddedArcIds(v.scene.arcs), Green, r.flags.additionalEdgesHighlighted)
  {
    var on := !v.flags.additionalEdgesHighlighted;
    var ids := AddedArcIds(v.scene.arcs);
    var s := if on then AddClassAll(v.cy.value, ids, Green)
             else RemoveClassAll(v.cy.value, ids, Green);
    v.(flags := v.flags.(additionalEdgesHighlighted := on), cy := Some(s))
  }

  /** `toggleSpanningTree`: hide when visible, show otherwise. */
  function ToggleSpanningTree(v: View): (r: View)
    requires v.cy.Some?
    ensures r == v.(flags := v.flags.(spanningTreeVisible := !v.flags.spanningTreeVisible), cy := r.cy) && r.cy.Some?
    ensures SameExcept(v.cy.value, r.cy.value, {SpanningTree})
    ensures ClassIs(r.cy.value, v.scene.spanningTree, SpanningTree, r.flags.spanningTreeVisible)
  {
    if v.flags.spanningTreeVisible then
      v.(flags := v.flags.(spanningTreeVisible := false), cy := Some(RemoveClassAll(v.cy.value, v.scene.spanningTree, SpanningTree)))
    else
      v.(flags := v.flags.(spanningTreeVisible := true), cy := Some(AddClassAll(v.cy.value, v.scene.spanningTree, SpanningTree)))
  }

  /** `toggleTD`: `invisible` on the dual vertices only. */
  function ToggleTD(v: View): (r: View)
    requires v.cy.Some?
    ensures r == v.(flags := v.flags.(tdVisible := !v.flags.tdVisible), cy := r.cy) && r.cy.Some?
    ensures SameExcept(v.cy.value, r.cy.value, {Invisible})
    ensures ClassIs(r.cy.value, v.scene.dualVertices, Invisible, !r.flags.tdVisible)
  {
    if v.flags.tdVisible then
      v.(flags := v.flags.(tdVisible := false), cy := Some(AddClassAll(v.cy.value, v.scene.dualVertices, Invisible)))
    else
      v.(flags := v.flags.(tdVisible := true), cy := Some(RemoveClassAll(v.cy.value, v.scene.dualVertices, Invisible)))
  }

  /** Every overlay class is on its elements exactly when its flag says so. */
  predicate OverlaysAgree(v: View)
    requires v.cy.Some?
  {
    var s := v.cy.value;
    ClassIs(s, v.scene.misElements, Yellow, v.flags.showingMIS) &&
    ClassIs(s, AddedArcIds(v.scene.arcs), Green, v.flags.additionalEdgesHighlighted) &&
    ClassIs(s, v.scene.spanningTree, SpanningTree, v.flags.spanningTreeVisible) &&
    ClassIs(s, v.scene.dualVertices, Invisible, !v.flags.tdVisible)
  }

  /** Toggling an overlay twice restores the whole view. */
  lemma ToggleTwiceRestores(v: View)
    requires v.cy.Some? && OverlaysAgree(v)
    ensures ToggleMIS(ToggleMIS(v)) == v
    ensures ToggleAdditionalEdges(ToggleAdditionalEdges(v)) == v
    ensures ToggleSpanningTree(ToggleSpanningTree(v)) == v
    ensures ToggleTD(ToggleTD(v)) == v
  {
    var s := v.cy.value;
    if v.flags.showingMIS {
      RemoveThenAddRestores(s, v.scene.misElements, Yellow);
    } else {
      AddThenRemoveRestores(s, v.scene.misElements, Yellow);
    }
    if v.flags.additionalEdgesHighlighted {
      RemoveThenAddRestores(s, AddedArcIds(v.scene.arcs), Green);
    } else {
      AddThenRemoveRestores(s, AddedArcIds(v.scene.arcs), Green);
    }
    if v.flags.spanningTreeVisible {
      RemoveThenAddRestores(s, v.scene.spanningTree, SpanningTree);
    } else {
      AddThenRemoveRestores(s, v.scene.spanningTree, SpanningTree);
    }
    if v.flags.tdVisible {
      AddThenRemoveRestores(s, v.scene.dualVertices, Invisible);
    } else {
      RemoveThenAddRestores(s, v.scene.dualVertices, Invisible);
    }
  }

  // ------------------------------------------------------------------
  // Events

  datatype Event = Next(kind: Kind) | Prev(kind: Kind) | ToggleTd | ToggleSt | ToggleAdded | ToggleMis | Unknown

  /** The message data the viewer reacts to, one event each; anything else
      is ignored. */
  function ParseEvent(data: string): (e: Event)
    ensures data == "NEXT_BAG" <==> e == Next(BagKind)
    ensures data == "PREV_BAG" <==> e == Prev(BagKind)
    ensures data == "NEXT_FACE" <==> e == Next(FaceKind)
    ensures data == "PREV_FACE" <==> e == Prev(FaceKind)
    ensures data == "NEXT_RING" <==> e == Next(RingKind)
    ensures data == "PREV_RING" <==> e == Prev(RingKind)
    ensures data == "NEXT_DONUT" <==> e == Next(DonutKind)
    ensures data == "PREV_DONUT" <==> e == Prev(DonutKind)
    ensures data == "TOGGLE_TD" <==> e == ToggleTd
    ensures data == "TOGGLE_ST" <==> e == ToggleSt
    ensures data == "TOGGLE_ADDITIONAL_EDGES" <==> e == ToggleAdded
    ensures data == "TOGGLE_MIS" <==> e == ToggleMis
  {
    match data
    case "NEXT_BAG" => Next(BagKind)
    case "PREV_BAG" => Prev(BagKind)
    case "NEXT_FACE" => Next(FaceKind)
    case "PREV_FACE" => Prev(FaceKind)
    case "NEXT_RING" => Next(RingKind)
    case "PREV_RING" => Prev(RingKind)
    case "NEXT_DONUT" => Next(DonutKind)
    case "PREV_DONUT" => Prev(DonutKind)
    case "TOGGLE_TD" => ToggleTd
    case "TOGGLE_ST" => ToggleSt
    case "TOGGLE_ADDITIONAL_EDGES" => ToggleAdded
    case "TOGGLE_MIS" => ToggleMis
    case _ => Unknown
  }

  /** Pointer `k` took one step in direction `up` and nothing else moved:
      the scene and flags are kept, and the surface changed only in the
      classes kind `k` uses. */
  predicate Moved(v: View, r: View, k: Kind, up: bool)
    requires v.cy.Some? && r.cy.Some?
  {
    Unmoved(v, r) &&
    Current(r, k) == Step(Current(v, k), Count(v.scene, k) - 1, up) &&
    (forall j :: j != k ==> Current(r, j) == Current(v, j)) &&
    SameExcept(v.cy.value, r.cy.value, Touched(k))
  }

  /** One overlay flag flipped and its class follows it on its ids: the scene
      and pointers are kept, and the surface changed only in that class. */
  predicate Flipped(v: View, r: View, flags: Flags, c: CssClass, ids: seq<string>, on: bool)
    requires v.cy.Some? && r.cy.Some?
  {
    r.scene == v.scene && r.ptr == v.ptr && r.flags == flags &&
    SameExcept(v.cy.value, r.cy.value, {c}) && ClassIs(r.cy.value, ids, c, on)
  }

  /** What event `e` does to a drawn view. */
  predicate Performs(v: View, r: View, e: Event)
    requires v.cy.Some? && r.cy.Some?
  {
    match e
    case Next(k) => Moved(v, r, k, true)
    case Prev(k) => Moved(v, r, k, false)
    case ToggleTd =>
      var f := v.flags.(tdVisible := !v.flags.tdVisible);
      Flipped(v, r, f, Invisible, v.scene.dualVertices, !f.tdVisible)
    case ToggleSt =>
      var f := v.flags.(spanningTreeVisible := !v.flags.spanningTreeVisible);
      Flipped(v, r, f, SpanningTree, v.scene.spanningTree, f.spanningTreeVisible)
    case ToggleAdded =>
      var f := v.flags.(additionalEdgesHighlighted := !v.flags.additionalEdgesHighlighted);
      Flipped(v, r, f, Green, AddedArcIds(v.scene.arcs), f.additionalEdgesHighlighted)
    case ToggleMis =>
      var f := v.flags.(showingMIS := !v.flags.showingMIS);
      Flipped(v, r, f, Yellow, v.scene.misElements, f.showingMIS)
    case Unknown => r == v
  }

  /** One event applied to a drawn view: a step of its kind's pointer, a
      flip of its overlay, or nothing for an unknown event. */
  function Dispatch(v: View, e: Event): (r: View)
    requires Valid(v) && v.cy.Some?
    ensures Valid(r) && r.cy.Some?
    ensures Performs(v, r, e)
  {
    match e
    case Next(k) => HighlightNextOf(v, k, true)
    case Prev(k) => HighlightNextOf(v, k, false)
    case ToggleTd => ToggleTD(v)
    case ToggleSt => ToggleSpanningTree(v)
    case ToggleAdded => ToggleAdditionalEdges(v)
    case ToggleMis => ToggleMIS(v)
    case Unknown => v
  }

  /** `handleNavigationEvent`: ignored before the first draw; otherwise the
      message data picks the event and the view performs it. */
  function HandleEvent(v: View, data: string): (r: View)
    requires Valid(v)
    ensures Valid(r)
    ensures v.cy.None? ==> r == v
    ensures v.cy.Some? ==> r.cy.Some? && Performs(v, r, ParseEvent(data))
  {
    if v.cy.None? then v else Dispatch(v, ParseEvent(data))
  }

  /** Stepping keeps every overlay class in agreement with its flag. */
  lemma StepKeepsOverlays(v: View, k: Kind, up: bool)
    requires Valid(v) && v.cy.Some? && OverlaysAgree(v)
    ensures OverlaysAgree(HighlightNextOf(v, k, up))
  {
    var r := HighlightNextOf(v, k, up);
    var s, t := v.cy.value, r.cy.value;
    SameExceptKeeps(s, t, Touched(k), v.scene.misElements, Yellow, v.flags.showingMIS);
    SameExceptKeeps(s, t, Touched(k), AddedArcIds(v.scene.arcs), Green, v.flags.additionalEdgesHighlighted);
    SameExceptKeeps(s, t, Touched(k), v.scene.spanningTree, SpanningTree, v.flags.spanningTreeVisible);
    SameExceptKeeps(s, t, Touched(k), v.scene.dualVertices, Invisible, !v.flags.tdVisible);
  }

  /** Each toggle keeps the other overlays in agreement with their flags. */
  lemma TogglesKeepOverlays(v: View)
    requires v.cy.Some? && OverlaysAgree(v)
    ensures OverlaysAgree(ToggleTD(v)) && OverlaysAgree(ToggleSpanningTree(v))
    ensures OverlaysAgree(ToggleAdditionalEdges(v)) && OverlaysAgree(ToggleMIS(v))
  {
    var s := v.cy.value;
    var t := ToggleTD(v).cy.value;
    SameExceptKeeps(s, t, {Invisible}, v.scene.misElements, Yellow, v.flags.showingMIS);
    SameExceptKeeps(s, t, {Invisible}, AddedArcIds(v.scene.arcs), Green, v.flags.additionalEdgesHighlighted);
    SameExceptKeeps(s, t, {Invisible}, v.scene.spanningTree, SpanningTree, v.flags.spanningTreeVisible);
    t := ToggleSpanningTree(v).cy.value;
    SameExceptKeeps(s, t, {SpanningTree}, v.scene.misElements, Yellow, v.flags.showingMIS);
    SameExceptKeeps(s, t, {SpanningTree}, AddedArcIds(v.scene.arcs), Green, v.flags.additionalEdgesHighlighted);
    SameExceptKeeps(s, t, {SpanningTree}, v.scene.dualVertices, Invisible, !v.flags.tdVisible);
    t := ToggleAdditionalEdges(v).cy.value;
    SameExceptKeeps(s, t, {Green}, v.scene.misElements, Yellow, v.flags.showingMIS);
    SameExceptKeeps(s, t, {Green}, v.scene.spanningTree, SpanningTree, v.flags.spanningTreeVisible);
    SameExceptKeeps(s, t, {Green}, v.scene.dualVertices, Invisible, !v.flags.tdVisible);
    t := ToggleMIS(v).cy.value;
    SameExceptKeeps(s, t, {Yellow}, AddedArcIds(v.scene.arcs), Green, v.flags.additionalEdgesHighlighted);
    SameExceptKeeps(s, t, {Yellow}, v.scene.spanningTree, SpanningTree, v.flags.spanningTreeVisible);
    SameExceptKeeps(s, t, {Yellow}, v.scene.dualVertices, Invisible, !v.flags.tdVisible);
  }

  /** Every event keeps the overlay classes in agreement with their flags. */
  lemma EventKeepsOverlays(v: View, data: string)
    requires Valid(v) && v.cy.Some? && OverlaysAgree(v)
    ensures OverlaysAgree(HandleEvent(v, data))
  {
    match ParseEvent(data)
    case Next(k) => StepKeepsOverlays(v, k, true);
    case Prev(k) => StepKeepsOverlays(v, k, false);
    case _ => TogglesKeepOverlays(v);
  }

  /** Every item of every kind is shown plainly. */
  ghost predicate AllDark(v: View)
    requires v.cy.Some?
  {
    forall k, i: nat :: Fits(v.scene, k, i) ==> Dark(v.scene, k, i, v.cy.value)
  }

  /** A graph update, `load` followed by `draw`: with well-formed data that
      has vertices, the view starts over with every pointer at -1, nothing
      highlighted and every overlay off except the tree decomposition. */
  function Reload(v: View, data: Option<GraphData>): (r: View)
    requires v.ptr.donut != -1 && v.flags.showTriangulatedDonutArcs ==> 0 <= v.ptr.donut < |v.scene.donuts|
    ensures data.None? ==> r == Draw(v)
    ensures data.Some? && WellFormedData(data.value) && |data.value.vertices| > 0 ==>
      Valid(r) && r.cy.Some? && OverlaysAgree(r) && AllDark(r) &&
      r.ptr.face == r.ptr.bag == r.ptr.ring == r.ptr.donut == -1
  {
    var l := Load(v, data);
    var r := Draw(l);
    if data.Some? && WellFormedData(data.value) && |data.value.vertices| > 0 then
      FreshSurfaceIsPlain(r);
      r
    else
      r
  }

  lemma FreshSurfaceIsPlain(r: View)
    requires r.cy.Some? && !r.flags.showingMIS && !r.flags.additionalEdgesHighlighted && !r.flags.spanningTreeVisible && r.flags.tdVisible
    requires forall id :: id in r.cy.value ==> r.cy.value[id] <= {Td}
    requires forall id :: id in r.scene.dualVertices && id in r.cy.value ==> Td in r.cy.value[id]
    ensures OverlaysAgree(r) && AllDark(r)
  {
    var s := r.cy.value;
    forall k, i: nat | Fits(r.scene, k, i)
      ensures Dark(r.scene, k, i, s)
    {
      var dv := DualOf(r.scene, k, i);
      if dv.Some? {
        assert dv.value in r.scene.dualVertices;
      }
    }
  }
}
