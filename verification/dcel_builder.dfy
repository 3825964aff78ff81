/** The DCEL builder: arcs are pushed one by one as (source, destination)
    pairs; each arc is appended to its source's rotation and paired with the
    first reverse arc listed at its destination. `build` then sets the
    destination ports, traces the faces and emits a `Dcel`. The same push
    and port code also lives in the older `src/graph/dcel_builder.rs`. */
module DcelBuilders {
  import opened Wrappers
  import Dcels

  datatype BArc = BArc(src: nat, srcPort: Option<nat>, dst: nat, dstPort: Option<nat>,
                       next: Option<nat>, prev: Option<nat>, twin: Option<nat>, face: Option<nat>)

  datatype BVertex = BVertex(arcs: seq<nat>)

  datatype BFace = BFace(startArc: nat)

  datatype Builder = Builder(vertices: seq<BVertex>, arcs: seq<BArc>, faces: seq<BFace>)

  /** `Arc::new`: only the two ends are known. */
  function NewArc(src: nat, dst: nat): (a: BArc)
    ensures a.src == src && a.dst == dst
    ensures a.srcPort.None? && a.dstPort.None? && a.next.None? && a.prev.None? && a.twin.None? && a.face.None?
  {
    BArc(src, None, dst, None, None, None, None, None)
  }

  /** `DcelBuilder::new`. */
  function New(): (b: Builder)
    ensures |b.vertices| == 0 && |b.arcs| == 0 && |b.faces| == 0
  {
    Builder([], [], [])
  }

  // ------------------------------------------------------------ invariants

  /** Each rotation entry is an arc leaving that vertex at that port. */
  ghost predicate Listed(b: Builder) {
    forall w, k {:trigger b.vertices[w].arcs[k]} :: 0 <= w < |b.vertices| && 0 <= k < |b.vertices[w].arcs| ==>
      b.vertices[w].arcs[k] < |b.arcs| &&
      b.arcs[b.vertices[w].arcs[k]].src == w && b.arcs[b.vertices[w].arcs[k]].srcPort == Some(k)
  }

  /** Each arc sits in its source's rotation at its source port. */
  ghost predicate Ported(b: Builder) {
    forall a {:trigger b.arcs[a]} :: 0 <= a < |b.arcs| ==>
      b.arcs[a].src < |b.vertices| && b.arcs[a].srcPort.Some? &&
      b.arcs[a].srcPort.value < |b.vertices[b.arcs[a].src].arcs| &&
      b.vertices[b.arcs[a].src].arcs[b.arcs[a].srcPort.value] == a
  }

  ghost predicate TwinsInRange(b: Builder) {
    forall a :: 0 <= a < |b.arcs| && b.arcs[a].twin.Some? ==> b.arcs[a].twin.value < |b.arcs|
  }

  /** The ports and rotations agree and every twin is an arc. */
  ghost predicate Wf(b: Builder) {
    Listed(b) && Ported(b) && TwinsInRange(b)
  }

  /** An arc's twin runs the other way. */
  ghost predicate TwinsReverse(b: Builder) {
    forall a {:trigger b.arcs[a]} :: 0 <= a < |b.arcs| && b.arcs[a].twin.Some? && b.arcs[a].twin.value < |b.arcs| ==>
      b.arcs[b.arcs[a].twin.value].src == b.arcs[a].dst && b.arcs[b.arcs[a].twin.value].dst == b.arcs[a].src
  }

  /** Nothing of `build` has happened yet: no faces, no face links. */
  ghost predicate Fresh(b: Builder) {
    |b.faces| == 0 &&
    forall a :: 0 <= a < |b.arcs| ==> b.arcs[a].next.None? && b.arcs[a].prev.None? && b.arcs[a].face.None?
  }

  // -------------------------------------------------------------- push_arc

  /** Missing vertices up to `src` are added with empty rotations. */
  function Grow(vs: seq<BVertex>, src: nat): (r: seq<BVertex>)
    ensures |r| == if src < |vs| then |vs| else src + 1
    ensures forall w :: 0 <= w < |r| ==> r[w] == if w < |vs| then vs[w] else BVertex([])
  {
    if src < |vs| then vs else vs + seq(src + 1 - |vs|, _ => BVertex([]))
  }

  /** The first listed arc that ends at `src`, the twin `push_arc` picks. */
  function FirstTwin(arcs: seq<BArc>, list: seq<nat>, src: nat): (r: Option<nat>)
    requires forall k :: 0 <= k < |list| ==> list[k] < |arcs|
    ensures r.None? <==> forall k :: 0 <= k < |list| ==> arcs[list[k]].dst != src
    ensures r.Some? ==>
      exists k :: 0 <= k < |list| && list[k] == r.value && arcs[r.value].dst == src &&
        forall j :: 0 <= j < k ==> arcs[list[j]].dst != src
  {
    if |list| == 0 then None
    else if arcs[list[0]].dst == src then Some(list[0])
    else
      var r := FirstTwin(arcs, list[1..], src);
      assert forall k :: 0 < k < |list| ==> list[k] == list[1..][k - 1];
      if r.Some? then
        ghost var k :| 0 <= k < |list[1..]| && list[1..][k] == r.value && arcs[r.value].dst == src &&
          forall j :: 0 <= j < k ==> arcs[list[1..][j]].dst != src;
        assert list[k + 1] == r.value;
        r
      else r
  }

  /** The arc appended and listed at its source, before the twin search. */
  function Append(b: Builder, src: nat, dst: nat): (r: Builder)
    ensures |r.arcs| == |b.arcs| + 1 && r.faces == b.faces && forall a :: 0 <= a < |b.arcs| ==> r.arcs[a] == b.arcs[a]
    ensures r.arcs[|b.arcs|] == NewArc(src, dst).(srcPort := Some(if src < |b.vertices| then |b.vertices[src].arcs| else 0))
    ensures |r.vertices| == if src < |b.vertices| then |b.vertices| else src + 1
    ensures r.vertices[src].arcs == (if src < |b.vertices| then b.vertices[src].arcs else []) + [|b.arcs|]
    ensures forall w :: 0 <= w < |r.vertices| && w != src ==>
      r.vertices[w].arcs == if w < |b.vertices| then b.vertices[w].arcs else []
  {
    var vs := Grow(b.vertices, src);
    Builder(vs[src := BVertex(vs[src].arcs + [|b.arcs|])],
            b.arcs + [NewArc(src, dst).(srcPort := Some(|vs[src].arcs|))], b.faces)
  }

  lemma AppendWf(b: Builder, src: nat, dst: nat)
    requires Wf(b)
    ensures Wf(Append(b, src, dst))
  {
    AppendListed(b, src, dst);
    AppendPorted(b, src, dst);
    var r := Append(b, src, dst);
    forall a | 0 <= a < |r.arcs| && r.arcs[a].twin.Some?
      ensures r.arcs[a].twin.value < |r.arcs|
    {
      if a < |b.arcs| {
        assert r.arcs[a] == b.arcs[a];
      }
    }
  }

  lemma AppendListed(b: Builder, src: nat, dst: nat)
    requires Wf(b)
    ensures Listed(Append(b, src, dst))
  {
    var r := Append(b, src, dst);
    var cur := |b.arcs|;
    forall w, k | 0 <= w < |r.vertices| && 0 <= k < |r.vertices[w].arcs|
      ensures r.vertices[w].arcs[k] < |r.arcs| &&
        r.arcs[r.vertices[w].arcs[k]].src == w && r.arcs[r.vertices[w].arcs[k]].srcPort == Some(k)
    {
      var before := if w < |b.vertices| then b.vertices[w].arcs else [];
      if w == src && k == |before| {
        assert r.vertices[w].arcs[k] == cur;
      } else {
        assert w < |b.vertices| && k < |b.vertices[w].arcs|;
        var x := b.vertices[w].arcs[k];
        assert r.vertices[w].arcs[k] == x;
        assert r.arcs[x] == b.arcs[x];
      }
    }
  }

  lemma AppendPorted(b: Builder, src: nat, dst: nat)
    requires Wf(b)
    ensures Ported(Append(b, src, dst))
  {
    var r := Append(b, src, dst);
    forall a | 0 <= a < |r.arcs|
      ensures r.arcs[a].src < |r.vertices| && r.arcs[a].srcPort.Some? &&
        r.arcs[a].srcPort.value < |r.vertices[r.arcs[a].src].arcs| &&
        r.vertices[r.arcs[a].src].arcs[r.arcs[a].srcPort.value] == a
    {
      if a < |b.arcs| {
        assert r.arcs[a] == b.arcs[a];
        var w, k := b.arcs[a].src, b.arcs[a].srcPort.value;
        assert b.vertices[w].arcs[k] == a;
        if w == src {
          assert r.vertices[w].arcs[k] == a;
        } else {
          assert r.vertices[w].arcs == b.vertices[w].arcs;
        }
      }
    }
  }

  /** `DcelBuilder::push_arc`: appends the arc at the end of its source's
      rotation and, when the destination already exists, makes it and the
      first arc listed there that ends at `src` twins of each other. Only
      twins change in arcs already there. */
  /** Two arcs that agree on everything but the twin link. */
  predicate SameButTwin(x: BArc, y: BArc) {
    x.src == y.src && x.srcPort == y.srcPort && x.dst == y.dst && x.dstPort == y.dstPort &&
    x.next == y.next && x.prev == y.prev && x.face == y.face
  }

  function PushArc(b: Builder, src: nat, dst: nat): (r: Builder)
    requires Wf(b)
    ensures r.vertices == Append(b, src, dst).vertices && r.faces == b.faces && |r.arcs| == |b.arcs| + 1
    ensures forall a :: 0 <= a < |r.arcs| ==> SameButTwin(r.arcs[a], Append(b, src, dst).arcs[a])
    ensures forall a :: 0 <= a < |b.arcs| && r.arcs[|b.arcs|].twin != Some(a) ==> r.arcs[a] == b.arcs[a]
  {
    var m := Append(b, src, dst);
    AppendWf(b, src, dst);
    var cur := |b.arcs|;
    if |m.vertices| <= dst then m
    else
      var t := FirstTwin(m.arcs, m.vertices[dst].arcs, src);
      if t.None? then m
      else
        m.(arcs := PairTwins(m.arcs, cur, t.value))
  }

  /** Makes arcs `x` and `y` twins of each other. */
  function PairTwins(arcs: seq<BArc>, x: nat, y: nat): (r: seq<BArc>)
    requires x < |arcs| && y < |arcs|
    ensures |r| == |arcs| && r[x].twin == Some(y) && r[y].twin == Some(x)
    ensures forall a :: 0 <= a < |r| ==> SameButTwin(r[a], arcs[a])
    ensures forall a :: 0 <= a < |r| && a != x && a != y ==> r[a] == arcs[a]
  {
    var a1 := arcs[x := arcs[x].(twin := Some(y))];
    a1[y := a1[y].(twin := Some(x))]
  }

  /** The twin `push_arc` finds: when there is one it is a mutual twin, listed
      at the destination and ending at the source; there is none exactly when
      no arc listed at the destination ends at the source. */
  lemma PushArcTwin(b: Builder, src: nat, dst: nat)
    requires Wf(b)
    ensures var r := PushArc(b, src, dst);
      r.arcs[|b.arcs|].twin.Some? ==>
        var p := r.arcs[|b.arcs|].twin.value;
        p < |r.arcs| && r.arcs[p].twin == Some(|b.arcs|) && dst < |r.vertices| && p in r.vertices[dst].arcs &&
        r.arcs[p].src == dst && r.arcs[p].dst == src
    ensures var r := PushArc(b, src, dst);
      r.arcs[|b.arcs|].twin.None? <==>
        (dst >= |r.vertices| || forall p :: p in r.vertices[dst].arcs && p < |r.arcs| ==> r.arcs[p].dst != src)
  {
    var r := PushArc(b, src, dst);
    var m := Append(b, src, dst);
    AppendWf(b, src, dst);
    if r.arcs[|b.arcs|].twin.Some? {
      var p := r.arcs[|b.arcs|].twin.value;
      var k :| 0 <= k < |m.vertices[dst].arcs| && m.vertices[dst].arcs[k] == p;
      assert m.arcs[p].src == dst;
      assert SameButTwin(r.arcs[p], m.arcs[p]);
    }
  }

  lemma PushArcWf(b: Builder, src: nat, dst: nat)
    requires Wf(b)
    ensures Wf(PushArc(b, src, dst))
  {
    var r := PushArc(b, src, dst);
    AppendWf(b, src, dst);
    SameButTwinWf(Append(b, src, dst), r);
    PushArcTwin(b, src, dst);
    TwinsInRangeAfter(b.arcs, r.arcs);
  }

  /** Pairing the last arc with a mutual twin keeps twins in range. */
  lemma TwinsInRangeAfter(arcs: seq<BArc>, arcs': seq<BArc>)
    requires forall a :: 0 <= a < |arcs| && arcs[a].twin.Some? ==> arcs[a].twin.value < |arcs|
    requires |arcs'| == |arcs| + 1
    requires forall a :: 0 <= a < |arcs| && arcs'[|arcs|].twin != Some(a) ==> arcs'[a] == arcs[a]
    requires arcs'[|arcs|].twin.Some? ==>
      arcs'[|arcs|].twin.value < |arcs'| && arcs'[arcs'[|arcs|].twin.value].twin == Some(|arcs|)
    ensures forall a :: 0 <= a < |arcs'| && arcs'[a].twin.Some? ==> arcs'[a].twin.value < |arcs'|
  {
    forall a | 0 <= a < |arcs'| && arcs'[a].twin.Some?
      ensures arcs'[a].twin.value < |arcs'|
    {
      if a < |arcs| && arcs'[|arcs|].twin != Some(a) {
        assert arcs'[a] == arcs[a];
      }
    }
  }

  /** Changing only twin links keeps the rotations and ports consistent. */
  lemma SameButTwinWf(m: Builder, r: Builder)
    requires Listed(m) && Ported(m)
    requires r.vertices == m.vertices && |r.arcs| == |m.arcs|
    requires forall a :: 0 <= a < |r.arcs| ==> SameButTwin(r.arcs[a], m.arcs[a])
    ensures Listed(r) && Ported(r)
  {
    forall w, k | 0 <= w < |r.vertices| && 0 <= k < |r.vertices[w].arcs|
      ensures r.vertices[w].arcs[k] < |r.arcs| &&
        r.arcs[r.vertices[w].arcs[k]].src == w && r.arcs[r.vertices[w].arcs[k]].srcPort == Some(k)
    {
      var x := m.vertices[w].arcs[k];
      assert SameButTwin(r.arcs[x], m.arcs[x]);
    }
    forall a | 0 <= a < |r.arcs|
      ensures r.arcs[a].src < |r.vertices| && r.arcs[a].srcPort.Some? &&
        r.arcs[a].srcPort.value < |r.vertices[r.arcs[a].src].arcs| &&
        r.vertices[r.arcs[a].src].arcs[r.arcs[a].srcPort.value] == a
    {
      assert SameButTwin(r.arcs[a], m.arcs[a]);
      assert m.arcs[a].src < |m.vertices|;
    }
  }

  /** Pushing keeps twins reversed. */
  lemma PushArcReverse(b: Builder, src: nat, dst: nat)
    requires Wf(b) && TwinsReverse(b)
    ensures TwinsReverse(PushArc(b, src, dst))
  {
    var r := PushArc(b, src, dst);
    var m := Append(b, src, dst);
    var cur := |b.arcs|;
    PushArcTwin(b, src, dst);
    forall a | 0 <= a < |r.arcs| && r.arcs[a].twin.Some? && r.arcs[a].twin.value < |r.arcs|
      ensures r.arcs[r.arcs[a].twin.value].src == r.arcs[a].dst && r.arcs[r.arcs[a].twin.value].dst == r.arcs[a].src
    {
      var t := r.arcs[a].twin.value;
      assert SameButTwin(r.arcs[t], m.arcs[t]);
      assert SameButTwin(r.arcs[a], m.arcs[a]);
      if a != cur && r.arcs[cur].twin != Some(a) {
        assert r.arcs[a] == b.arcs[a];
        if t != cur && r.arcs[cur].twin != Some(t) {
          assert r.arcs[t] == b.arcs[t];
        }
      }
    }
  }

  /** Pushing leaves the face links untouched. */
  lemma PushArcFresh(b: Builder, src: nat, dst: nat)
    requires Wf(b) && Fresh(b)
    ensures Fresh(PushArc(b, src, dst))
  {
    var r := PushArc(b, src, dst);
    var m := Append(b, src, dst);
    forall a | 0 <= a < |r.arcs|
      ensures r.arcs[a].next.None? && r.arcs[a].prev.None? && r.arcs[a].face.None?
    {
      assert SameButTwin(r.arcs[a], m.arcs[a]);
    }
  }

  // -------------------------------------------------------- set_dest_ports

  /** The loop of `set_dest_ports` from arc `i` on: each arc writes its
      source port into its twin's destination port; an arc without twin
      panics (`None`). */
  function SetDestPortsFrom(arcs: seq<BArc>, i: nat): (r: Option<seq<BArc>>)
    requires i <= |arcs|
    requires forall a :: 0 <= a < |arcs| && arcs[a].twin.Some? ==> arcs[a].twin.value < |arcs|
    ensures r.Some? <==> forall j :: i <= j < |arcs| ==> arcs[j].twin.Some?
    ensures r.Some? ==> |r.value| == |arcs|
    ensures r.Some? ==> forall a :: 0 <= a < |arcs| ==> r.value[a].(dstPort := None) == arcs[a].(dstPort := None)
    decreases |arcs| - i
  {
    if i == |arcs| then Some(arcs)
    else if arcs[i].twin.None? then None
    else
      var t := arcs[i].twin.value;
      var arcs' := arcs[t := arcs[t].(dstPort := arcs[i].srcPort)];
      assert forall x :: 0 <= x < |arcs| ==> arcs'[x].(dstPort := None) == arcs[x].(dstPort := None);
      SetDestPortsFrom(arcs', i + 1)
  }

  /** Which port an arc ends at after the loop: the source port of the last
      arc from `i` on that names it as twin, or the old value when none does. */
  lemma {:induction false} SetDestPortsFromLast(arcs: seq<BArc>, i: nat, a: nat)
    requires i <= |arcs| && a < |arcs|
    requires forall x :: 0 <= x < |arcs| && arcs[x].twin.Some? ==> arcs[x].twin.value < |arcs|
    requires SetDestPortsFrom(arcs, i).Some?
    ensures var r := SetDestPortsFrom(arcs, i).value;
      (r[a].dstPort == arcs[a].dstPort && forall j :: i <= j < |arcs| ==> arcs[j].twin != Some(a)) ||
      exists j :: i <= j < |arcs| && arcs[j].twin == Some(a) && r[a].dstPort == arcs[j].srcPort &&
        forall j' :: j < j' < |arcs| ==> arcs[j'].twin != Some(a)
    decreases |arcs| - i
  {
    if i < |arcs| {
      var t := arcs[i].twin.value;
      var arcs' := arcs[t := arcs[t].(dstPort := arcs[i].srcPort)];
      assert forall x :: 0 <= x < |arcs| ==> arcs'[x].twin == arcs[x].twin && arcs'[x].srcPort == arcs[x].srcPort;
      SetDestPortsFromLast(arcs', i + 1, a);
    }
  }

  /** Twins pair up: each arc is the twin of its twin. */
  ghost predicate TwinsInvolutive(arcs: seq<BArc>) {
    forall a :: 0 <= a < |arcs| ==>
      arcs[a].twin.Some? && arcs[a].twin.value < |arcs| && arcs[arcs[a].twin.value].twin == Some(a)
  }

  /** `set_dest_ports`. */
  function SetDestPorts(b: Builder): (r: Option<Builder>)
    requires Wf(b)
    ensures r.Some? <==> forall a :: 0 <= a < |b.arcs| ==> b.arcs[a].twin.Some?
    ensures r.Some? ==> r.value.vertices == b.vertices && r.value.faces == b.faces && |r.value.arcs| == |b.arcs|
    ensures r.Some? ==> forall a :: 0 <= a < |b.arcs| ==> r.value.arcs[a].(dstPort := None) == b.arcs[a].(dstPort := None)
  {
    match SetDestPortsFrom(b.arcs, 0)
    case None => None
    case Some(arcs) => Some(b.(arcs := arcs))
  }

  /** When twins pair up, every arc ends at the port where its twin starts. */
  lemma SetDestPortsTwins(b: Builder)
    requires Wf(b) && TwinsInvolutive(b.arcs)
    ensures SetDestPorts(b).Some?
    ensures forall a :: 0 <= a < |b.arcs| ==>
      SetDestPorts(b).value.arcs[a].dstPort == b.arcs[b.arcs[a].twin.value].srcPort
  {
    var r := SetDestPorts(b).value;
    forall a | 0 <= a < |b.arcs|
      ensures r.arcs[a].dstPort == b.arcs[b.arcs[a].twin.value].srcPort
    {
      var t := b.arcs[a].twin.value;
      SetDestPortsFromLast(b.arcs, 0, a);
      assert b.arcs[t].twin == Some(a);
      if j :| 0 <= j < |b.arcs| && b.arcs[j].twin == Some(a) && r.arcs[a].dstPort == b.arcs[j].srcPort {
        assert j == b.arcs[b.arcs[j].twin.value].twin.value;
      }
    }
  }

  /** `set_dest_ports` keeps the builder well formed. */
  lemma SetDestPortsWf(b: Builder)
    requires Wf(b) && SetDestPorts(b).Some?
    ensures Wf(SetDestPorts(b).value) && (Fresh(b) ==> Fresh(SetDestPorts(b).value))
  {
    var r := SetDestPorts(b).value;
    assert forall a :: 0 <= a < |b.arcs| ==>
      r.arcs[a].src == b.arcs[a].src && r.arcs[a].srcPort == b.arcs[a].srcPort && r.arcs[a].twin == b.arcs[a].twin &&
      r.arcs[a].next == b.arcs[a].next && r.arcs[a].prev == b.arcs[a].prev && r.arcs[a].face == b.arcs[a].face;
  }

  // --------------------------------------------------------- find_next_arc

  /** `find_next_arc`: the arc after the destination port in the rotation
      of the destination, wrapping round after the last port. Panics
      (`None`) without a destination port, on an empty rotation (the
      length minus one underflows) and on a port past the end. */
  function NextArc(b: Builder, a: nat): (r: Option<nat>)
    requires a < |b.arcs|
    ensures r.Some? <==>
      b.arcs[a].dstPort.Some? && b.arcs[a].dst < |b.vertices| &&
      b.arcs[a].dstPort.value < |b.vertices[b.arcs[a].dst].arcs|
    ensures r.Some? ==>
      var rot := b.vertices[b.arcs[a].dst].arcs;
      r.value == rot[(b.arcs[a].dstPort.value + 1) % |rot|]
  {
    var arc := b.arcs[a];
    if arc.dstPort.None? || arc.dst >= |b.vertices| then None
    else
      var rot := b.vertices[arc.dst].arcs;
      if |rot| == 0 then None
      else
        var port := if arc.dstPort.value == |rot| - 1 then 0 else arc.dstPort.value + 1;
        if port >= |rot| then None else Some(rot[port])
  }

  /** The next arc leaves the destination, at the port after the
      destination port. */
  lemma NextArcLeaves(b: Builder, a: nat)
    requires Wf(b) && a < |b.arcs| && NextArc(b, a).Some?
    ensures var n := NextArc(b, a).value;
      n < |b.arcs| && b.arcs[n].src == b.arcs[a].dst &&
      b.arcs[n].srcPort == Some((b.arcs[a].dstPort.value + 1) % |b.vertices[b.arcs[a].dst].arcs|)
  {
  }

  // ----------------------------------------------------------- build_faces

  /** How many arcs are still unvisited. */
  function Unvisited(visited: seq<bool>): (n: nat)
    ensures n <= |visited|
    ensures n == 0 <==> forall a :: 0 <= a < |visited| ==> visited[a]
  {
    if |visited| == 0 then 0
    else (if visited[0] then 0 else 1) + Unvisited(visited[1..])
  }

  lemma {:induction false} VisitDecreases(visited: seq<bool>, a: nat)
    requires a < |visited| && !visited[a]
    ensures Unvisited(visited[a := true]) < Unvisited(visited)
  {
    if a > 0 {
      assert visited[a := true][1..] == visited[1..][a - 1 := true];
      VisitDecreases(visited[1..], a - 1);
    }
  }

  /** `find_next_arc` for every arc. `build_faces` never changes what it
      reads (destinations, destination ports, rotations), so the table
      stays valid while the faces are traced. */
  function NextArcs(b: Builder): (nx: seq<Option<nat>>)
    ensures |nx| == |b.arcs| && forall a :: 0 <= a < |b.arcs| ==> nx[a] == NextArc(b, a)
  {
    seq(|b.arcs|, a requires 0 <= a < |b.arcs| => NextArc(b, a))
  }

  /** Every successor in the table is an arc. */
  ghost predicate Succ(nx: seq<Option<nat>>) {
    forall a :: 0 <= a < |nx| && nx[a].Some? ==> nx[a].value < |nx|
  }

  lemma NextArcsSucc(b: Builder)
    requires Wf(b)
    ensures Succ(NextArcs(b))
  {
    var nx := NextArcs(b);
    forall a | 0 <= a < |nx| && nx[a].Some?
      ensures nx[a].value < |nx|
    {
      NextArcLeaves(b, a);
    }
  }

  /** The inner loop of `build_faces`, tracing face `f` after `prev`; `next`
      is the arc `find_next_arc` gave for `prev`. When it meets a visited
      arc it closes the face by linking `prev` to it. */
  function FaceLoop(nx: seq<Option<nat>>, arcs: seq<BArc>, visited: seq<bool>, f: nat, prev: nat, next: nat): (r: Option<(seq<BArc>, seq<bool>)>)
    requires Succ(nx) && |arcs| == |nx| && |visited| == |nx| && prev < |nx| && next < |nx|
    ensures r.Some? ==> |r.value.0| == |arcs| && |r.value.1| == |arcs|
    ensures (forall a :: 0 <= a < |nx| ==> nx[a].Some?) ==> r.Some?
    decreases Unvisited(visited)
  {
    if visited[next] then
      var a1 := arcs[prev := arcs[prev].(next := Some(next))];
      Some((a1[next := a1[next].(prev := Some(prev))], visited))
    else
      var v1 := visited[next := true];
      var a1 := arcs[next := arcs[next].(face := Some(f), prev := Some(prev))];
      var a2 := a1[prev := a1[prev].(next := Some(next))];
      if nx[next].None? then None
      else
        VisitDecreases(visited, next);
        FaceLoop(nx, a2, v1, f, next, nx[next].value)
  }

  /** The outer loop of `build_faces` from arc `i`: each arc not yet on a
      face starts a new one. */
  function FacesFrom(nx: seq<Option<nat>>, i: nat, arcs: seq<BArc>, visited: seq<bool>, faces: seq<BFace>): (r: Option<(seq<BArc>, seq<BFace>)>)
    requires Succ(nx) && |arcs| == |nx| && |visited| == |nx| && i <= |nx|
    ensures r.Some? ==> |r.value.0| == |arcs| && |faces| <= |r.value.1| && r.value.1[..|faces|] == faces
    ensures (forall a :: 0 <= a < |nx| ==> nx[a].Some?) ==> r.Some?
    decreases |nx| - i
  {
    if i == |nx| then Some((arcs, faces))
    else if visited[i] then FacesFrom(nx, i + 1, arcs, visited, faces)
    else if nx[i].None? then None
    else
      var st := FaceLoop(nx, arcs[i := arcs[i].(face := Some(|faces|))], visited[i := true], |faces|, i, nx[i].value);
      if st.None? then None
      else
        var r := FacesFrom(nx, i + 1, st.value.0, st.value.1, faces + [BFace(i)]);
        assert r.Some? ==> r.value.1[..|faces|] == (faces + [BFace(i)])[..|faces|];
        r
  }

  /** `build_faces`; a `find_next_arc` that panics gives `None`. */
  function BuildFaces(b: Builder): (r: Option<Builder>)
    requires Wf(b)
    ensures r.Some? ==> r.value.vertices == b.vertices && |r.value.arcs| == |b.arcs|
    ensures r.Some? ==> |b.faces| <= |r.value.faces| && r.value.faces[..|b.faces|] == b.faces
    ensures (forall a :: 0 <= a < |b.arcs| ==> NextArc(b, a).Some?) ==> r.Some?
  {
    var nx := NextArcs(b);
    NextArcsSucc(b);
    match FacesFrom(nx, 0, b.arcs, seq(|b.arcs|, _ => false), b.faces)
    case None => None
    case Some((arcs, faces)) => Some(Builder(b.vertices, arcs, faces))
  }

  // ------------------------------------------------- build_faces invariants

  /** Only the face links differ from the original arcs. */
  ghost predicate Shape(orig: seq<BArc>, arcs: seq<BArc>) {
    |arcs| == |orig| &&
    forall a :: 0 <= a < |arcs| ==>
      arcs[a].src == orig[a].src && arcs[a].dst == orig[a].dst && arcs[a].twin == orig[a].twin &&
      arcs[a].srcPort == orig[a].srcPort && arcs[a].dstPort == orig[a].dstPort
  }

  /** Every link set so far follows the successor table. */
  ghost predicate Links(nx: seq<Option<nat>>, arcs: seq<BArc>) {
    |arcs| == |nx| &&
    forall a :: 0 <= a < |arcs| ==>
      (arcs[a].next.Some? ==> arcs[a].next == nx[a]) &&
      (arcs[a].prev.Some? ==> arcs[a].prev.value < |nx| && nx[arcs[a].prev.value] == Some(a))
  }

  /** Exactly the visited arcs have a face, and it is one of the first `nf`. */
  ghost predicate Faced(arcs: seq<BArc>, visited: seq<bool>, nf: nat) {
    |visited| == |arcs| &&
    forall a :: 0 <= a < |arcs| ==>
      (visited[a] <==> arcs[a].face.Some?) && (arcs[a].face.Some? ==> arcs[a].face.value < nf)
  }

  /** Every visited arc has its next link, except possibly `open`. */
  ghost predicate Linked(arcs: seq<BArc>, visited: seq<bool>, open: Option<nat>) {
    |visited| == |arcs| &&
    forall a :: 0 <= a < |arcs| && visited[a] && open != Some(a) ==> arcs[a].next.Some?
  }

  /** Each face's start arc lies on that face. */
  ghost predicate Starts(arcs: seq<BArc>, faces: seq<BFace>) {
    forall f :: 0 <= f < |faces| ==> faces[f].startArc < |arcs| && arcs[faces[f].startArc].face == Some(f)
  }

  /** Arcs visited before keep their face. */
  ghost predicate Keeps(arcs: seq<BArc>, visited: seq<bool>, arcs': seq<BArc>, visited': seq<bool>) {
    |arcs'| == |arcs| == |visited| == |visited'| &&
    forall a :: 0 <= a < |arcs| && visited[a] ==> visited'[a] && arcs'[a].face == arcs[a].face
  }

  /** The invariants of the inner loop, with `open` the arc whose next link
      is still to be set. */
  ghost predicate LoopInv(orig: seq<BArc>, nx: seq<Option<nat>>, arcs: seq<BArc>, visited: seq<bool>, nf: nat, open: Option<nat>) {
    Shape(orig, arcs) && Links(nx, arcs) && Faced(arcs, visited, nf) && Linked(arcs, visited, open)
  }

  lemma {:induction false} FaceLoopInv(orig: seq<BArc>, nx: seq<Option<nat>>, arcs: seq<BArc>, visited: seq<bool>, f: nat, prev: nat, next: nat)
    requires Succ(nx) && |arcs| == |nx| && |visited| == |nx| && prev < |nx| && next < |nx|
    requires LoopInv(orig, nx, arcs, visited, f + 1, Some(prev)) && visited[prev] && nx[prev] == Some(next)
    ensures var r := FaceLoop(nx, arcs, visited, f, prev, next);
      r.Some? ==> LoopInv(orig, nx, r.value.0, r.value.1, f + 1, None) && Keeps(arcs, visited, r.value.0, r.value.1)
    decreases Unvisited(visited)
  {
    if visited[next] {
      FaceLoopClose(orig, nx, arcs, visited, f, prev, next);
    } else {
      var v1 := visited[next := true];
      var a1 := arcs[next := arcs[next].(face := Some(f), prev := Some(prev))];
      var a2 := a1[prev := a1[prev].(next := Some(next))];
      if nx[next].Some? {
        VisitDecreases(visited, next);
        FaceLoopStep(orig, nx, arcs, visited, f, prev, next);
        FaceLoopInv(orig, nx, a2, v1, f, next, nx[next].value);
      }
    }
  }

  /** Closing the face (linking `prev` to the visited `next`) keeps the
      invariants and leaves no visited arc without its next link. */
  lemma FaceLoopClose(orig: seq<BArc>, nx: seq<Option<nat>>, arcs: seq<BArc>, visited: seq<bool>, f: nat, prev: nat, next: nat)
    requires |arcs| == |nx| && |visited| == |nx| && prev < |nx| && next < |nx|
    requires LoopInv(orig, nx, arcs, visited, f + 1, Some(prev)) && visited[prev] && nx[prev] == Some(next) && visited[next]
    ensures var a1 := arcs[prev := arcs[prev].(next := Some(next))];
      var a2 := a1[next := a1[next].(prev := Some(prev))];
      LoopInv(orig, nx, a2, visited, f + 1, None) && Keeps(arcs, visited, a2, visited)
  {
    var a1 := arcs[prev := arcs[prev].(next := Some(next))];
    var a2 := a1[next := a1[next].(prev := Some(prev))];
    forall a | 0 <= a < |a2|
      ensures a2[a].src == arcs[a].src && a2[a].dst == arcs[a].dst && a2[a].twin == arcs[a].twin &&
        a2[a].srcPort == arcs[a].srcPort && a2[a].dstPort == arcs[a].dstPort && a2[a].face == arcs[a].face
      ensures a != prev ==> a2[a].next == arcs[a].next
      ensures a != next ==> a2[a].prev == arcs[a].prev
    {
    }
  }

  /** One round of the inner loop keeps the invariants, with the newly
      visited arc as the open one. */
  lemma FaceLoopStep(orig: seq<BArc>, nx: seq<Option<nat>>, arcs: seq<BArc>, visited: seq<bool>, f: nat, prev: nat, next: nat)
    requires |arcs| == |nx| && |visited| == |nx| && prev < |nx| && next < |nx|
    requires LoopInv(orig, nx, arcs, visited, f + 1, Some(prev)) && visited[prev] && nx[prev] == Some(next) && !visited[next]
    ensures var v1 := visited[next := true];
      var a1 := arcs[next := arcs[next].(face := Some(f), prev := Some(prev))];
      var a2 := a1[prev := a1[prev].(next := Some(next))];
      LoopInv(orig, nx, a2, v1, f + 1, Some(next)) && Keeps(arcs, visited, a2, v1)
  {
    var v1 := visited[next := true];
    var a1 := arcs[next := arcs[next].(face := Some(f), prev := Some(prev))];
    var a2 := a1[prev := a1[prev].(next := Some(next))];
    forall a | 0 <= a < |a2|
      ensures a2[a].src == arcs[a].src && a2[a].dst == arcs[a].dst && a2[a].twin == arcs[a].twin &&
        a2[a].srcPort == arcs[a].srcPort && a2[a].dstPort == arcs[a].dstPort
      ensures a != next ==> a2[a].face == arcs[a].face && a2[a].prev == arcs[a].prev
      ensures a != prev ==> a2[a].next == arcs[a].next
    {
    }
  }

  /** Starting a face at the unvisited arc `i` sets up the inner loop's
      invariants, with `i` open. */
  lemma FacesFromOpen(orig: seq<BArc>, nx: seq<Option<nat>>, i: nat, arcs: seq<BArc>, visited: seq<bool>, nf: nat)
    requires |arcs| == |nx| && |visited| == |nx| && i < |nx| && !visited[i]
    requires LoopInv(orig, nx, arcs, visited, nf, None)
    ensures var a1 := arcs[i := arcs[i].(face := Some(nf))];
      LoopInv(orig, nx, a1, visited[i := true], nf + 1, Some(i)) && Keeps(arcs, visited, a1, visited[i := true])
  {
    var a1 := arcs[i := arcs[i].(face := Some(nf))];
    assert forall a :: 0 <= a < |arcs| && a != i ==> a1[a] == arcs[a];
  }

  /** The state `build_faces` ends in: only face links changed, all of
      them follow `find_next_arc`, every arc has a next link and a face,
      and each face's start arc lies on that face. */
  ghost predicate Traced(orig: seq<BArc>, nx: seq<Option<nat>>, arcs: seq<BArc>, faces: seq<BFace>) {
    Shape(orig, arcs) && Links(nx, arcs) && Starts(arcs, faces) &&
    forall a :: 0 <= a < |arcs| ==>
      arcs[a].face.Some? && arcs[a].face.value < |faces| && arcs[a].next.Some?
  }

  lemma FacesDone(orig: seq<BArc>, nx: seq<Option<nat>>, arcs: seq<BArc>, visited: seq<bool>, faces: seq<BFace>,
                  r: (seq<BArc>, seq<BFace>))
    requires OuterInv(orig, nx, arcs, visited, faces) && VisitedBelow(visited, |arcs|) && r == (arcs, faces)
    ensures Traced(orig, nx, r.0, r.1)
  {
  }

  /** The invariants of the outer loop before arc `i`. */
  ghost predicate OuterInv(orig: seq<BArc>, nx: seq<Option<nat>>, arcs: seq<BArc>, visited: seq<bool>, faces: seq<BFace>) {
    LoopInv(orig, nx, arcs, visited, |faces|, None) && Starts(arcs, faces)
  }

  /** The arcs before `i` are all visited. */
  ghost predicate VisitedBelow(visited: seq<bool>, i: nat) {
    i <= |visited| && forall a :: 0 <= a < i ==> visited[a]
  }

  lemma {:induction false} FacesFromInv(orig: seq<BArc>, nx: seq<Option<nat>>, i: nat, arcs: seq<BArc>, visited: seq<bool>, faces: seq<BFace>,
                                        r: (seq<BArc>, seq<BFace>))
    requires Succ(nx) && |arcs| == |nx| && |visited| == |nx| && i <= |nx|
    requires OuterInv(orig, nx, arcs, visited, faces) && VisitedBelow(visited, i)
    requires FacesFrom(nx, i, arcs, visited, faces) == Some(r)
    ensures Traced(orig, nx, r.0, r.1)
    decreases |nx| - i, 1
  {
    if i == |nx| {
      FacesDone(orig, nx, arcs, visited, faces, r);
    } else if visited[i] {
      FacesFromInvSkip(orig, nx, i, arcs, visited, faces, r);
    } else {
      FacesFromInvStep(orig, nx, i, arcs, visited, faces, r);
    }
  }

  lemma {:induction false} FacesFromInvSkip(orig: seq<BArc>, nx: seq<Option<nat>>, i: nat, arcs: seq<BArc>, visited: seq<bool>, faces: seq<BFace>,
                                            r: (seq<BArc>, seq<BFace>))
    requires Succ(nx) && |arcs| == |nx| && |visited| == |nx| && i < |nx| && visited[i]
    requires OuterInv(orig, nx, arcs, visited, faces) && VisitedBelow(visited, i)
    requires FacesFrom(nx, i, arcs, visited, faces) == Some(r)
    ensures Traced(orig, nx, r.0, r.1)
    decreases |nx| - i, 0
  {
    FacesFromSkip(nx, i, arcs, visited, faces);
    assert VisitedBelow(visited, i + 1);
    FacesFromInv(orig, nx, i + 1, arcs, visited, faces, r);
  }

  lemma {:induction false} FacesFromInvStep(orig: seq<BArc>, nx: seq<Option<nat>>, i: nat, arcs: seq<BArc>, visited: seq<bool>, faces: seq<BFace>,
                                            r: (seq<BArc>, seq<BFace>))
    requires Succ(nx) && |arcs| == |nx| && |visited| == |nx| && i < |nx| && !visited[i]
    requires OuterInv(orig, nx, arcs, visited, faces) && VisitedBelow(visited, i)
    requires FacesFrom(nx, i, arcs, visited, faces) == Some(r)
    ensures Traced(orig, nx, r.0, r.1)
    decreases |nx| - i, 0
  {
    FacesFromNext(nx, i, arcs, visited, faces);
    var st := FaceLoop(nx, arcs[i := arcs[i].(face := Some(|faces|))], visited[i := true], |faces|, i, nx[i].value).value;
    FacesFromStep(orig, nx, i, arcs, visited, faces);
    FacesFromInv(orig, nx, i + 1, st.0, st.1, faces + [BFace(i)], r);
  }

  /** An arc already on a face is skipped. */
  lemma FacesFromSkip(nx: seq<Option<nat>>, i: nat, arcs: seq<BArc>, visited: seq<bool>, faces: seq<BFace>)
    requires Succ(nx) && |arcs| == |nx| && |visited| == |nx| && i < |nx| && visited[i]
    ensures FacesFrom(nx, i, arcs, visited, faces) == FacesFrom(nx, i + 1, arcs, visited, faces)
  {
  }

  /** One round of the outer loop, unfolded. */
  lemma FacesFromNext(nx: seq<Option<nat>>, i: nat, arcs: seq<BArc>, visited: seq<bool>, faces: seq<BFace>)
    requires Succ(nx) && |arcs| == |nx| && |visited| == |nx| && i < |nx| && !visited[i]
    requires FacesFrom(nx, i, arcs, visited, faces).Some?
    ensures nx[i].Some? && FaceLoop(nx, arcs[i := arcs[i].(face := Some(|faces|))], visited[i := true], |faces|, i, nx[i].value).Some?
    ensures var st := FaceLoop(nx, arcs[i := arcs[i].(face := Some(|faces|))], visited[i := true], |faces|, i, nx[i].value).value;
      FacesFrom(nx, i, arcs, visited, faces) == FacesFrom(nx, i + 1, st.0, st.1, faces + [BFace(i)])
  {
  }

  /** One round of the outer loop keeps its invariants. */
  lemma FacesFromStep(orig: seq<BArc>, nx: seq<Option<nat>>, i: nat, arcs: seq<BArc>, visited: seq<bool>, faces: seq<BFace>)
    requires Succ(nx) && |arcs| == |nx| && |visited| == |nx| && i < |nx| && !visited[i] && nx[i].Some?
    requires OuterInv(orig, nx, arcs, visited, faces) && VisitedBelow(visited, i)
    ensures var st := FaceLoop(nx, arcs[i := arcs[i].(face := Some(|faces|))], visited[i := true], |faces|, i, nx[i].value);
      st.Some? ==> OuterInv(orig, nx, st.value.0, st.value.1, faces + [BFace(i)]) && VisitedBelow(st.value.1, i + 1)
  {
    var a1 := arcs[i := arcs[i].(face := Some(|faces|))];
    var v1 := visited[i := true];
    FacesFromOpen(orig, nx, i, arcs, visited, |faces|);
    FaceLoopInv(orig, nx, a1, v1, |faces|, i, nx[i].value);
    var st := FaceLoop(nx, a1, v1, |faces|, i, nx[i].value);
    if st.Some? {
      FaceStarts(arcs, visited, faces, i, a1, v1, st.value.0, st.value.1);
    }
  }

  /** The faces traced so far keep their start arcs, and the new face
      starts at `i`. */
  lemma FaceStarts(arcs: seq<BArc>, visited: seq<bool>, faces: seq<BFace>, i: nat,
                   a1: seq<BArc>, v1: seq<bool>, a2: seq<BArc>, v2: seq<bool>)
    requires Faced(arcs, visited, |faces|) && Starts(arcs, faces) && i < |arcs| && VisitedBelow(visited, i)
    requires Keeps(arcs, visited, a1, v1) && Keeps(a1, v1, a2, v2) && v1[i] && a1[i].face == Some(|faces|)
    ensures Starts(a2, faces + [BFace(i)]) && VisitedBelow(v2, i + 1)
  {
    var faces' := faces + [BFace(i)];
    forall g | 0 <= g < |faces'|
      ensures faces'[g].startArc < |a2| && a2[faces'[g].startArc].face == Some(g)
    {
      if g < |faces| {
        assert visited[faces[g].startArc];
      }
    }
  }

  /** What `build_faces` establishes: every arc lies on one of the new
      faces and links to the arc `find_next_arc` gives for it, every
      previous link is the inverse of a next link, and each face's start arc
      lies on that face. Nothing else about the arcs changes. */
  lemma BuildFacesSound(b: Builder)
    requires Wf(b) && Fresh(b)
    ensures BuildFaces(b).Some? ==> Traced(b.arcs, NextArcs(b), BuildFaces(b).value.arcs, BuildFaces(b).value.faces)
  {
    var nx := NextArcs(b);
    NextArcsSucc(b);
    var visited := seq(|b.arcs|, _ => false);
    assert OuterInv(b.arcs, nx, b.arcs, visited, b.faces) && VisitedBelow(visited, 0);
    var r := FacesFrom(nx, 0, b.arcs, visited, b.faces);
    if r.Some? {
      FacesFromInv(b.arcs, nx, 0, b.arcs, visited, b.faces, r.value);
    }
  }

  // ----------------------------------------------------------------- build

  /** One arc of the result; every link must be set (`unwrap`). */
  function ToArc(a: BArc): (r: Option<Dcels.Arc>)
    ensures r.Some? <==> a.next.Some? && a.prev.Some? && a.twin.Some? && a.face.Some?
    ensures r.Some? ==> r.value == Dcels.Arc(a.src, a.dst, a.next.value, a.prev.value, a.twin.value, a.face.value)
  {
    if a.next.Some? && a.prev.Some? && a.twin.Some? && a.face.Some? then
      Some(Dcels.Arc(a.src, a.dst, a.next.value, a.prev.value, a.twin.value, a.face.value))
    else None
  }

  function ToArcs(arcs: seq<BArc>): (r: Option<seq<Dcels.Arc>>)
    ensures r.Some? <==> forall a :: 0 <= a < |arcs| ==> ToArc(arcs[a]).Some?
    ensures r.Some? ==> |r.value| == |arcs| && forall a :: 0 <= a < |arcs| ==> r.value[a] == ToArc(arcs[a]).value
  {
    if |arcs| == 0 then Some([])
    else
      var last := ToArc(arcs[|arcs| - 1]);
      var init := ToArcs(arcs[..|arcs| - 1]);
      assert forall a :: 0 <= a < |arcs| - 1 ==> arcs[..|arcs| - 1][a] == arcs[a];
      if last.None? || init.None? then None
      else Some(init.value + [last.value])
  }

  function ToVertices(vs: seq<BVertex>): (r: seq<Dcels.Vertex>)
    ensures |r| == |vs| && forall w :: 0 <= w < |vs| ==> r[w].arcs == vs[w].arcs
  {
    seq(|vs|, w requires 0 <= w < |vs| => Dcels.Vertex(vs[w].arcs))
  }

  function ToFaces(fs: seq<BFace>): (r: seq<Dcels.Face>)
    ensures |r| == |fs| && forall f :: 0 <= f < |fs| ==> r[f].startArc == fs[f].startArc
  {
    seq(|fs|, f requires 0 <= f < |fs| => Dcels.Face(fs[f].startArc))
  }

  /** `DcelBuilder::build`: destination ports, then faces, then the `Dcel`
      with the same vertices and arcs in the same order; a missing link
      panics (`None`). */
  function Build(b: Builder): (r: Option<Dcels.Dcel>)
    requires Wf(b)
    ensures r.Some? ==> forall a :: 0 <= a < |b.arcs| ==> b.arcs[a].twin.Some?
    ensures r.Some? ==> |r.value.arcs| == |b.arcs| && |r.value.vertices| == |b.vertices|
    ensures r.Some? ==> forall w :: 0 <= w < |b.vertices| ==> r.value.vertices[w].arcs == b.vertices[w].arcs
  {
    var b1 := SetDestPorts(b);
    if b1.None? then None
    else
      SetDestPortsWf(b);
      var b2 := BuildFaces(b1.value);
      if b2.None? then None
      else
        var arcs := ToArcs(b2.value.arcs);
        if arcs.None? then None
        else Some(Dcels.Dcel(ToVertices(b2.value.vertices), arcs.value, ToFaces(b2.value.faces)))
  }

  /** `set_dest_ports` changes nothing but destination ports. */
  lemma SetDestPortsKeeps(b: Builder)
    requires Wf(b) && SetDestPorts(b).Some?
    ensures var r := SetDestPorts(b).value;
      |r.arcs| == |b.arcs| &&
      forall a :: 0 <= a < |b.arcs| ==>
        r.arcs[a].src == b.arcs[a].src && r.arcs[a].dst == b.arcs[a].dst && r.arcs[a].twin == b.arcs[a].twin
  {
    var r := SetDestPorts(b).value;
    forall a | 0 <= a < |b.arcs|
      ensures r.arcs[a].src == b.arcs[a].src && r.arcs[a].dst == b.arcs[a].dst && r.arcs[a].twin == b.arcs[a].twin
    {
      assert r.arcs[a].(dstPort := None) == b.arcs[a].(dstPort := None);
    }
  }

  /** One arc `build` converts from a traced builder. */
  lemma TracedArc(orig: seq<BArc>, nx: seq<Option<nat>>, arcs: seq<BArc>, faces: seq<BFace>, out: seq<Dcels.Arc>, a: nat)
    requires Succ(nx) && Traced(orig, nx, arcs, faces) && ToArcs(arcs) == Some(out) && a < |out|
    requires forall a :: 0 <= a < |orig| && orig[a].twin.Some? ==> orig[a].twin.value < |orig|
    ensures out[a].next < |out| && out[a].prev < |out| && out[a].twin < |out| && out[a].face < |faces|
    ensures out[a].src == orig[a].src && out[a].dst == orig[a].dst && Some(out[a].twin) == orig[a].twin
    ensures nx[a] == Some(out[a].next)
    ensures forall p :: 0 <= p < |out| && out[a].prev == p ==> out[p].next == a
  {
    assert out[a] == ToArc(arcs[a]).value;
    var p := arcs[a].prev.value;
    assert out[p] == ToArc(arcs[p]).value;
  }

  /** The arcs `build` converts from a traced builder. */
  lemma TracedArcs(orig: seq<BArc>, nx: seq<Option<nat>>, arcs: seq<BArc>, faces: seq<BFace>, out: seq<Dcels.Arc>)
    requires Succ(nx) && Traced(orig, nx, arcs, faces) && ToArcs(arcs) == Some(out)
    requires forall a :: 0 <= a < |orig| && orig[a].twin.Some? ==> orig[a].twin.value < |orig|
    ensures |out| == |orig|
    ensures forall a :: 0 <= a < |out| ==>
      out[a].next < |out| && out[a].prev < |out| && out[a].twin < |out| && out[a].face < |faces| &&
      out[a].src == orig[a].src && out[a].dst == orig[a].dst && Some(out[a].twin) == orig[a].twin &&
      nx[a] == Some(out[a].next)
    ensures forall a, p :: 0 <= a < |out| && 0 <= p < |out| && out[a].prev == p ==> out[p].next == a
  {
    forall a | 0 <= a < |out|
      ensures out[a].next < |out| && out[a].prev < |out| && out[a].twin < |out| && out[a].face < |faces|
      ensures out[a].src == orig[a].src && out[a].dst == orig[a].dst && Some(out[a].twin) == orig[a].twin
      ensures nx[a] == Some(out[a].next)
      ensures forall p :: 0 <= p < |out| && out[a].prev == p ==> out[p].next == a
    {
      TracedArc(orig, nx, arcs, faces, out, a);
    }
  }

  /** The faces `build` converts from a traced builder. */
  lemma TracedFaces(orig: seq<BArc>, nx: seq<Option<nat>>, arcs: seq<BArc>, faces: seq<BFace>, out: seq<Dcels.Arc>, outFaces: seq<Dcels.Face>)
    requires Traced(orig, nx, arcs, faces) && ToArcs(arcs) == Some(out) && outFaces == ToFaces(faces)
    ensures |outFaces| == |faces|
    ensures forall f :: 0 <= f < |outFaces| ==> outFaces[f].startArc < |out| && out[outFaces[f].startArc].face == f
  {
    forall f | 0 <= f < |outFaces|
      ensures outFaces[f].startArc < |out| && out[outFaces[f].startArc].face == f
    {
      var s := faces[f].startArc;
      assert out[s] == ToArc(arcs[s]).value;
    }
  }

  /** A `Dcel` built from arcs `orig` with successor table `nx`: it is
      closed, its arcs keep their ends and twins, its next links follow
      the table, its previous links invert the next links, and every arc
      lies on a face whose start arc lies on that same face. */
  ghost predicate Converted(orig: seq<BArc>, nx: seq<Option<nat>>, d: Dcels.Dcel) {
    Dcels.Closed(d) && |d.arcs| == |orig| == |nx| &&
    (forall a :: 0 <= a < |d.arcs| ==>
      d.arcs[a].src == orig[a].src && d.arcs[a].dst == orig[a].dst && Some(d.arcs[a].twin) == orig[a].twin &&
      nx[a] == Some(d.arcs[a].next) && d.arcs[a].face < |d.faces|) &&
    (forall a, p :: 0 <= a < |d.arcs| && 0 <= p < |d.arcs| && d.arcs[a].prev == p ==> d.arcs[p].next == a) &&
    forall f :: 0 <= f < |d.faces| ==> d.arcs[d.faces[f].startArc].face == f
  }

  /** What `build` delivers when it does not panic: the `Dcel` of the
      original arcs whose next links are the arcs `find_next_arc` gives once
      the destination ports are set. */
  lemma BuildSound(b: Builder, d: Dcels.Dcel)
    requires Wf(b) && Fresh(b) && Build(b) == Some(d)
    ensures SetDestPorts(b).Some? && Converted(b.arcs, NextArcs(SetDestPorts(b).value), d)
  {
    var b1 := SetDestPorts(b).value;
    SetDestPortsWf(b);
    SetDestPortsKeeps(b);
    var b2 := BuildFaces(b1).value;
    BuildFacesSound(b1);
    NextArcsSucc(b1);
    BuildFrom(b.arcs, NextArcs(b1), b1.arcs, b2, d);
  }

  /** `build`'s conversion step, from the arcs after `set_dest_ports`
      (`arcs1`) and the builder after `build_faces` (`b2`). */
  lemma BuildFrom(orig: seq<BArc>, nx: seq<Option<nat>>, arcs1: seq<BArc>, b2: Builder, d: Dcels.Dcel)
    requires |arcs1| == |orig| && Succ(nx)
    requires forall a :: 0 <= a < |arcs1| && arcs1[a].twin.Some? ==> arcs1[a].twin.value < |arcs1|
    requires forall a :: 0 <= a < |orig| ==>
      arcs1[a].src == orig[a].src && arcs1[a].dst == orig[a].dst && arcs1[a].twin == orig[a].twin
    requires Traced(arcs1, nx, b2.arcs, b2.faces)
    requires ToArcs(b2.arcs) == Some(d.arcs) && d.faces == ToFaces(b2.faces)
    ensures Dcels.Closed(d)
    ensures |d.arcs| == |orig| == |nx|
    ensures forall a :: 0 <= a < |d.arcs| ==>
      d.arcs[a].src == orig[a].src && d.arcs[a].dst == orig[a].dst && Some(d.arcs[a].twin) == orig[a].twin &&
      nx[a] == Some(d.arcs[a].next) && d.arcs[a].face < |d.faces|
    ensures forall a, p :: 0 <= a < |d.arcs| && 0 <= p < |d.arcs| && d.arcs[a].prev == p ==> d.arcs[p].next == a
    ensures forall f :: 0 <= f < |d.faces| ==> d.arcs[d.faces[f].startArc].face == f
  {
    TracedArcs(arcs1, nx, b2.arcs, b2.faces, d.arcs);
    TracedFaces(arcs1, nx, b2.arcs, b2.faces, d.arcs, d.faces);
  }
}
