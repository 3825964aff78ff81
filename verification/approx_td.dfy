/** The approximate tree decomposition of a plane graph: one bag per face,
    holding the face's vertices together with their spanning-tree paths to
    the root, and bags linked like faces in the dual graph. */
module ApproxTds {
  import opened Wrappers
  import opened Dcels
  import opened TreePaths
  import opened DualGraphs
  import SubDcels

  /** The builder: bag adjacency, bag contents and the precomputed paths. */
  datatype TdBuilder = TdBuilder(adjacent: seq<seq<nat>>, bags: seq<set<nat>>, paths: PathState)

  /** `ApproximatedTD`: the graph is the caller's and is not stored here. */
  datatype ApproxTd = ApproxTd(bags: seq<set<nat>>, adjacent: seq<seq<nat>>, rootBag: nat)

  /** `num_bags`: one bag per adjacency list. */
  function NumBags(t: ApproxTd): nat {
    |t.adjacent|
  }

  /** Every arc's source is a vertex. */
  predicate SrcsIn(d: Dcel) {
    forall a :: 0 <= a < |d.arcs| ==> d.arcs[a].src < |d.vertices|
  }

  /** The sources of the arcs of `walk`: a face's vertices. */
  function Srcs(d: Dcel, walk: seq<nat>): set<nat>
    requires forall k :: 0 <= k < |walk| ==> walk[k] < |d.arcs|
  {
    set k | 0 <= k < |walk| :: d.arcs[walk[k]].src
  }

  /** The vertices of `s` together with every vertex on their stored paths. */
  function WithPaths(p: PathState, s: set<nat>): set<nat>
    requires forall v :: v in s ==> v < |p.onTreePath|
  {
    s + set v, k | v in s && 0 <= k < |p.onTreePath[v]| :: p.onTreePath[v][k]
  }

  /** `TDBuilder::new`: one empty bag and adjacency list per face, and the
      root paths of all vertices as `initialize_tree_paths` writes them.
      `parent[v]` is the source of the arc that discovered `v` in the
      spanning tree. */
  function New(d: Dcel, root: nat, parent: seq<nat>, fuel: nat): (r: Option<TdBuilder>)
    requires |parent| == |d.vertices| && ParentsIn(parent) && root < |parent|
    ensures r.Some? <==> InitPathsAsWritten(root, parent, fuel).Some?
    ensures r.Some? ==> r.value.paths == InitPathsAsWritten(root, parent, fuel).value
    ensures r.Some? ==> |r.value.bags| == |d.faces| && |r.value.adjacent| == |d.faces|
    ensures r.Some? ==> forall f :: 0 <= f < |d.faces| ==> r.value.bags[f] == {} && r.value.adjacent[f] == []
  {
    match InitPathsAsWritten(root, parent, fuel)
    case None => None
    case Some(p) => Some(TdBuilder(seq(|d.faces|, _ => []), seq(|d.faces|, _ => {}), p))
  }

  /** `TDBuilder::new` with the corrected `initialize_tree_paths`. */
  function NewCorrected(d: Dcel, root: nat, parent: seq<nat>, fuel: nat): (r: Option<TdBuilder>)
    requires |parent| == |d.vertices| && ParentsIn(parent) && root < |parent|
    ensures r.Some? <==> InitPaths(root, parent, fuel).Some?
    ensures r.Some? ==> r.value.paths == InitPaths(root, parent, fuel).value
    ensures r.Some? ==> |r.value.bags| == |d.faces| && |r.value.adjacent| == |d.faces|
    ensures r.Some? ==> forall f :: 0 <= f < |d.faces| ==> r.value.bags[f] == {} && r.value.adjacent[f] == []
  {
    match InitPaths(root, parent, fuel)
    case None => None
    case Some(p) => Some(TdBuilder(seq(|d.faces|, _ => []), seq(|d.faces|, _ => {}), p))
  }

  /** Every stored path is the path to the root. */
  ghost predicate PathsGood(p: PathState, parent: seq<nat>, level: seq<nat>, root: nat)
    requires Rooted(parent, level, root)
  {
    Sized(p, |parent|) &&
    forall v :: 0 <= v < |parent| ==> p.onTreePath[v] == RootPath(parent, level, root, v)
  }

  /** Every stored path is the path to the root or empty. */
  ghost predicate PathsSound(p: PathState, parent: seq<nat>, level: seq<nat>, root: nat)
    requires Rooted(parent, level, root)
  {
    Sized(p, |parent|) &&
    forall v :: 0 <= v < |parent| ==> p.onTreePath[v] == [] || p.onTreePath[v] == RootPath(parent, level, root, v)
  }

  /** On a BFS spanning tree the builder as written exists, and each stored
      path is the path to the root or empty. */
  lemma NewSoundPaths(d: Dcel, root: nat, parent: seq<nat>, level: seq<nat>, fuel: nat)
    requires |parent| == |d.vertices| && Rooted(parent, level, root)
    requires forall u :: 0 <= u < |parent| ==> level[u] < fuel
    ensures New(d, root, parent, fuel).Some?
    ensures PathsSound(New(d, root, parent, fuel).value.paths, parent, level, root)
  {
    InitPathsAsWrittenSound(root, parent, level, fuel);
  }

  /** On a BFS spanning tree a corrected builder exists and stores every
      vertex's path to the root. */
  lemma NewRootPaths(d: Dcel, root: nat, parent: seq<nat>, level: seq<nat>, fuel: nat)
    requires |parent| == |d.vertices| && Rooted(parent, level, root)
    requires forall u :: 0 <= u < |parent| ==> level[u] < fuel
    ensures NewCorrected(d, root, parent, fuel).Some?
    ensures PathsGood(NewCorrected(d, root, parent, fuel).value.paths, parent, level, root)
  {
    InitPathsRootPaths(root, parent, level, fuel);
  }

  /** The vertices of `s` with every vertex on their paths to the root: the
      smallest superset of `s` closed under taking the parent. */
  ghost function Closure(parent: seq<nat>, level: seq<nat>, root: nat, s: set<nat>): set<nat>
    requires Rooted(parent, level, root) && forall v :: v in s ==> v < |parent|
  {
    s + set v, k | v in s && 0 <= k < |RootPath(parent, level, root, v)| :: RootPath(parent, level, root, v)[k]
  }

  /** With sound paths a bag grown by its vertices' paths stays inside the
      closure; with every path the root path it is the closure. */
  lemma WithPathsClosure(p: PathState, parent: seq<nat>, level: seq<nat>, root: nat, s: set<nat>)
    requires Rooted(parent, level, root) && PathsSound(p, parent, level, root)
    requires forall v :: v in s ==> v < |parent|
    ensures WithPaths(p, s) <= Closure(parent, level, root, s)
    ensures PathsGood(p, parent, level, root) ==> WithPaths(p, s) == Closure(parent, level, root, s)
  {
    var c := Closure(parent, level, root, s);
    forall x | x in WithPaths(p, s)
      ensures x in c
    {
      if x !in s {
        var v, k :| v in s && 0 <= k < |p.onTreePath[v]| && p.onTreePath[v][k] == x;
        assert p.onTreePath[v] == RootPath(parent, level, root, v);
      }
    }
    if PathsGood(p, parent, level, root) {
      forall x | x in c
        ensures x in WithPaths(p, s)
      {
        if x !in s {
          var v, k :| v in s && 0 <= k < |RootPath(parent, level, root, v)| && RootPath(parent, level, root, v)[k] == x;
          assert p.onTreePath[v][k] == x;
        }
      }
    }
  }

  /** `add_face`: every boundary arc's source joins the bag, and every
      boundary arc outside the spanning tree links the bag to the face
      across it. */
  method AddFace(tb: TdBuilder, d: Dcel, contains: seq<bool>, walk: seq<nat>, bag: nat) returns (r: TdBuilder)
    requires ArcsOf(d, contains, walk) && bag < |tb.bags| && bag < |tb.adjacent|
    ensures r.bags == tb.bags[bag := tb.bags[bag] + Srcs(d, walk)]
    ensures r.adjacent == tb.adjacent[bag := tb.adjacent[bag] + TwinFaces(d, contains, walk)]
    ensures r.paths == tb.paths
  {
    var vs := tb.bags[bag];
    var row := tb.adjacent[bag];
    assert walk[..0] == [];
    for i := 0 to |walk|
      invariant vs == tb.bags[bag] + Srcs(d, walk[..i])
      invariant row == tb.adjacent[bag] + TwinFaces(d, contains, walk[..i])
    {
      var a := walk[i];
      SrcsStep(d, walk, i);
      TwinFacesStep(d, contains, walk, i);
      vs := vs + {d.arcs[a].src};
      if contains[a] {
        continue;
      }
      row := row + [Across(d, a)];
    }
    assert walk[..|walk|] == walk;
    r := tb.(bags := tb.bags[bag := vs], adjacent := tb.adjacent[bag := row]);
  }

  lemma SrcsStep(d: Dcel, walk: seq<nat>, i: nat)
    requires (forall k :: 0 <= k < |walk| ==> walk[k] < |d.arcs|) && i < |walk|
    ensures Srcs(d, walk[..i + 1]) == Srcs(d, walk[..i]) + {d.arcs[walk[i]].src}
  {
    var w := walk[..i + 1];
    assert w[i] == walk[i];
    assert forall k :: 0 <= k < i ==> w[k] == walk[..i][k];
  }

  lemma SrcsInRange(d: Dcel, walk: seq<nat>)
    requires SrcsIn(d) && forall k :: 0 <= k < |walk| ==> walk[k] < |d.arcs|
    ensures forall v :: v in Srcs(d, walk) ==> v < |d.vertices|
  {
  }

  /** `add_on_path_to_root`: the bag grows by the stored path of every
      vertex it held before. */
  function AddOnPathToRoot(tb: TdBuilder, bag: nat): (r: TdBuilder)
    requires bag < |tb.bags| && forall v :: v in tb.bags[bag] ==> v < |tb.paths.onTreePath|
    ensures r.adjacent == tb.adjacent && r.paths == tb.paths && |r.bags| == |tb.bags|
    ensures forall b :: 0 <= b < |tb.bags| && b != bag ==> r.bags[b] == tb.bags[b]
    ensures tb.bags[bag] <= r.bags[bag]
    ensures forall v, w :: v in tb.bags[bag] && w in tb.paths.onTreePath[v] ==> w in r.bags[bag]
    ensures forall w :: w in r.bags[bag] ==>
      w in tb.bags[bag] || exists v :: v in tb.bags[bag] && w in tb.paths.onTreePath[v]
  {
    tb.(bags := tb.bags[bag := WithPaths(tb.paths, tb.bags[bag])])
  }

  /** With every stored path the root path, a bag grown by its vertices'
      paths is closed under taking the parent: it holds, with every vertex
      but the root, that vertex's parent. */
  lemma WithPathsClosed(p: PathState, parent: seq<nat>, level: seq<nat>, root: nat, s: set<nat>)
    requires Rooted(parent, level, root) && PathsGood(p, parent, level, root)
    requires forall v :: v in s ==> v < |parent|
    ensures forall x :: x in WithPaths(p, s) ==> x < |parent|
    ensures forall x :: x in WithPaths(p, s) && x != root ==> parent[x] in WithPaths(p, s)
  {
    var r := WithPaths(p, s);
    forall x | x in r
      ensures x < |parent| && (x != root ==> parent[x] in r)
    {
      if x in s {
        RootPathShape(parent, level, root, x);
        if x != root {
          var q := p.onTreePath[x];
          assert q[0] == parent[x];
        }
      } else {
        var v, k :| v in s && 0 <= k < |p.onTreePath[v]| && p.onTreePath[v][k] == x;
        RootPathShape(parent, level, root, v);
        var q := p.onTreePath[v];
        if k + 1 < |q| {
          assert q[k + 1] == parent[x];
        }
      }
    }
  }

  /** Bag `f` and its adjacency after building: face `f`'s vertices with
      their root paths, and the faces across its non-tree arcs. */
  predicate Filled(d: Dcel, contains: seq<bool>, tb: TdBuilder, bags: seq<set<nat>>, adjacent: seq<seq<nat>>, f: nat)
    requires Closed(d) && |contains| == |d.arcs| && f < |d.faces|
  {
    WalkFace(d, f).Some? && f < |tb.bags| && f < |tb.adjacent| && f < |bags| && f < |adjacent| &&
    (forall v :: v in tb.bags[f] + Srcs(d, WalkFace(d, f).value) ==> v < |tb.paths.onTreePath|) &&
    bags[f] == WithPaths(tb.paths, tb.bags[f] + Srcs(d, WalkFace(d, f).value)) &&
    adjacent[f] == tb.adjacent[f] + TwinFaces(d, contains, WalkFace(d, f).value)
  }

  /** What `build` needs: the flags cover the arcs, one bag per face, and
      every vertex named has a stored path. */
  predicate Ready(d: Dcel, contains: seq<bool>, tb: TdBuilder) {
    Closed(d) && SrcsIn(d) && |contains| == |d.arcs| &&
    |tb.bags| == |d.faces| && |tb.adjacent| == |d.faces| && Sized(tb.paths, |d.vertices|) &&
    forall f, v :: 0 <= f < |tb.bags| && v in tb.bags[f] ==> v < |d.vertices|
  }

  /** One round of `build`: `add_face` and `add_on_path_to_root` for face `i`. */
  method FillBag(tb: TdBuilder, cur: TdBuilder, d: Dcel, contains: seq<bool>, walk: seq<nat>, i: nat)
    returns (next: TdBuilder)
    requires Ready(d, contains, tb) && i < |d.faces| && WalkFace(d, i) == Some(walk)
    requires cur.paths == tb.paths && |cur.bags| == |d.faces| && |cur.adjacent| == |d.faces|
    requires cur.bags[i] == tb.bags[i] && cur.adjacent[i] == tb.adjacent[i]
    ensures Filled(d, contains, tb, next.bags, next.adjacent, i)
    ensures next.paths == tb.paths && |next.bags| == |d.faces| && |next.adjacent| == |d.faces|
    ensures forall f :: 0 <= f < |d.faces| && f != i ==> next.bags[f] == cur.bags[f] && next.adjacent[f] == cur.adjacent[f]
  {
    var added := AddFace(cur, d, contains, walk, i);
    SrcsInRange(d, walk);
    next := AddOnPathToRoot(added, i);
  }

  /** `build`: `add_face` and then `add_on_path_to_root` for every face in
      index order. The source loops for ever on a face whose walk never
      comes back; the model says `None`. */
  method Build(tb: TdBuilder, d: Dcel, contains: seq<bool>) returns (r: Option<TdBuilder>)
    requires Ready(d, contains, tb)
    ensures r.Some? <==> Walkable(d)
    ensures r.Some? ==> r.value.paths == tb.paths && |r.value.bags| == |d.faces| && |r.value.adjacent| == |d.faces|
    ensures r.Some? ==> forall f :: 0 <= f < |d.faces| ==> Filled(d, contains, tb, r.value.bags, r.value.adjacent, f)
  {
    var cur := tb;
    for i := 0 to |d.faces|
      invariant cur.paths == tb.paths && |cur.bags| == |d.faces| && |cur.adjacent| == |d.faces|
      invariant forall f :: 0 <= f < i ==> Filled(d, contains, tb, cur.bags, cur.adjacent, f)
      invariant forall f :: i <= f < |d.faces| ==> cur.bags[f] == tb.bags[f] && cur.adjacent[f] == tb.adjacent[f]
    {
      match WalkFace(d, i)
      case None =>
        return None;
      case Some(walk) =>
        var next := FillBag(tb, cur, d, contains, walk, i);
        FilledKept(d, contains, tb, cur, next, i);
        cur := next;
    }
    FilledWalkable(d, contains, tb, cur);
    return Some(cur);
  }

  lemma FilledWalkable(d: Dcel, contains: seq<bool>, tb: TdBuilder, cur: TdBuilder)
    requires Closed(d) && |contains| == |d.arcs|
    requires forall f :: 0 <= f < |d.faces| ==> Filled(d, contains, tb, cur.bags, cur.adjacent, f)
    ensures Walkable(d)
  {
    forall f | 0 <= f < |d.faces|
      ensures WalkFace(d, f).Some?
    {
      assert Filled(d, contains, tb, cur.bags, cur.adjacent, f);
    }
  }

  lemma FilledKept(d: Dcel, contains: seq<bool>, tb: TdBuilder, cur: TdBuilder, next: TdBuilder, i: nat)
    requires Closed(d) && |contains| == |d.arcs| && i < |d.faces|
    requires |cur.bags| == |d.faces| && |cur.adjacent| == |d.faces| && |next.bags| == |d.faces| && |next.adjacent| == |d.faces|
    requires forall f :: 0 <= f < i ==> Filled(d, contains, tb, cur.bags, cur.adjacent, f)
    requires forall f :: 0 <= f < |d.faces| && f != i ==> next.bags[f] == cur.bags[f] && next.adjacent[f] == cur.adjacent[f]
    ensures forall f :: 0 <= f < i ==> Filled(d, contains, tb, next.bags, next.adjacent, f)
  {
    forall f | 0 <= f < i
      ensures Filled(d, contains, tb, next.bags, next.adjacent, f)
    {
      assert Filled(d, contains, tb, cur.bags, cur.adjacent, f);
    }
  }

  /** `to_td`: builds, then takes bag `0` as the root bag. */
  method ToTd(tb: TdBuilder, d: Dcel, contains: seq<bool>) returns (r: Option<ApproxTd>)
    requires Ready(d, contains, tb)
    ensures r.Some? <==> Walkable(d)
    ensures r.Some? ==> r.value.rootBag == 0 && NumBags(r.value) == |d.faces| && |r.value.bags| == |d.faces|
    ensures r.Some? ==> forall f :: 0 <= f < |d.faces| ==> Filled(d, contains, tb, r.value.bags, r.value.adjacent, f)
  {
    var built := Build(tb, d, contains);
    match built
    case None =>
      return None;
    case Some(b) =>
      return Some(ApproxTd(b.bags, b.adjacent, 0));
  }

  /** `ApproximatedTD::from` a new `TDBuilder`, with the tree paths as the
      source writes them: every bag holds its face's vertices and is linked
      to the faces the dual graph links its face to; on a BFS spanning tree
      whose faces can all be walked it is built, and each bag stays within
      the closure of its face's vertices under taking the parent. */
  method Approximate(d: Dcel, root: nat, parent: seq<nat>, fuel: nat, contains: seq<bool>, ghost level: seq<nat>)
    returns (r: Option<ApproxTd>)
    requires Closed(d) && SrcsIn(d) && |contains| == |d.arcs|
    requires |parent| == |d.vertices| && ParentsIn(parent) && root < |parent|
    ensures r.Some? ==> Walkable(d) && r.value.rootBag == 0 && NumBags(r.value) == |d.faces| && |r.value.bags| == |d.faces|
    ensures r.Some? ==> forall f :: 0 <= f < |d.faces| ==> Srcs(d, WalkFace(d, f).value) <= r.value.bags[f]
    ensures r.Some? ==> forall f :: 0 <= f < |d.faces| ==> r.value.adjacent[f] == TwinFaces(d, contains, WalkFace(d, f).value)
    ensures Rooted(parent, level, root) && (forall u :: 0 <= u < |parent| ==> level[u] < fuel) ==>
      (r.Some? <==> Walkable(d))
    ensures Rooted(parent, level, root) && (forall u :: 0 <= u < |parent| ==> level[u] < fuel) && r.Some? ==>
      forall f :: 0 <= f < |d.faces| ==>
        r.value.bags[f] <= Closure(parent, level, root, Srcs(d, WalkFace(d, f).value))
  {
    var nb := New(d, root, parent, fuel);
    if nb.None? {
      if Rooted(parent, level, root) && (forall u :: 0 <= u < |parent| ==> level[u] < fuel) {
        NewSoundPaths(d, root, parent, level, fuel);
      }
      return None;
    }
    var tb := nb.value;
    r := ToTd(tb, d, contains);
    if r.Some? {
      FilledFaces(d, contains, tb, r.value.bags, r.value.adjacent);
      if Rooted(parent, level, root) && (forall u :: 0 <= u < |parent| ==> level[u] < fuel) {
        NewSoundPaths(d, root, parent, level, fuel);
        FilledClosure(d, contains, tb, r.value.bags, r.value.adjacent, parent, level, root);
      }
    }
  }

  /** `ApproximatedTD::from` with the corrected tree paths: on a BFS spanning
      tree whose faces can all be walked, every bag is exactly the closure
      of its face's vertices, so it holds the parent of every vertex in it
      but the root, and is linked like its face in the dual graph. */
  method ApproximateCorrected(d: Dcel, root: nat, parent: seq<nat>, fuel: nat, contains: seq<bool>, ghost level: seq<nat>)
    returns (r: Option<ApproxTd>)
    requires Closed(d) && SrcsIn(d) && |contains| == |d.arcs|
    requires |parent| == |d.vertices| && ParentsIn(parent) && root < |parent|
    ensures r.Some? ==> Walkable(d) && r.value.rootBag == 0 && NumBags(r.value) == |d.faces| && |r.value.bags| == |d.faces|
    ensures r.Some? ==> forall f :: 0 <= f < |d.faces| ==> Srcs(d, WalkFace(d, f).value) <= r.value.bags[f]
    ensures r.Some? ==> forall f :: 0 <= f < |d.faces| ==> r.value.adjacent[f] == TwinFaces(d, contains, WalkFace(d, f).value)
    ensures Rooted(parent, level, root) && (forall u :: 0 <= u < |parent| ==> level[u] < fuel) ==>
      (r.Some? <==> Walkable(d))
    ensures Rooted(parent, level, root) && (forall u :: 0 <= u < |parent| ==> level[u] < fuel) && r.Some? ==>
      forall f :: 0 <= f < |d.faces| ==>
        r.value.bags[f] == Closure(parent, level, root, Srcs(d, WalkFace(d, f).value))
    ensures Rooted(parent, level, root) && (forall u :: 0 <= u < |parent| ==> level[u] < fuel) && r.Some? ==>
      forall f, x :: 0 <= f < |d.faces| && x in r.value.bags[f] ==>
        x < |parent| && (x != root ==> parent[x] in r.value.bags[f])
  {
    var nb := NewCorrected(d, root, parent, fuel);
    if nb.None? {
      if Rooted(parent, level, root) && (forall u :: 0 <= u < |parent| ==> level[u] < fuel) {
        NewRootPaths(d, root, parent, level, fuel);
      }
      return None;
    }
    var tb := nb.value;
    r := ToTd(tb, d, contains);
    if r.Some? {
      FilledFaces(d, contains, tb, r.value.bags, r.value.adjacent);
      if Rooted(parent, level, root) && (forall u :: 0 <= u < |parent| ==> level[u] < fuel) {
        NewRootPaths(d, root, parent, level, fuel);
        FilledClosure(d, contains, tb, r.value.bags, r.value.adjacent, parent, level, root);
        FilledClosed(d, contains, tb, r.value.bags, r.value.adjacent, parent, level, root);
      }
    }
  }

  /** A built bag is its face's vertices with their stored paths, so it is
      within their closure, and is the closure when every path is stored. */
  lemma FilledClosure(d: Dcel, contains: seq<bool>, tb: TdBuilder, bags: seq<set<nat>>, adjacent: seq<seq<nat>>,
                      parent: seq<nat>, level: seq<nat>, root: nat)
    requires Walkable(d) && SrcsIn(d) && |contains| == |d.arcs| && |parent| == |d.vertices|
    requires Rooted(parent, level, root) && PathsSound(tb.paths, parent, level, root)
    requires |tb.bags| == |d.faces| && |bags| == |d.faces|
    requires forall f :: 0 <= f < |d.faces| ==> tb.bags[f] == {}
    requires forall f :: 0 <= f < |d.faces| ==> Filled(d, contains, tb, bags, adjacent, f)
    ensures forall f :: 0 <= f < |d.faces| ==> bags[f] <= Closure(parent, level, root, Srcs(d, WalkFace(d, f).value))
    ensures PathsGood(tb.paths, parent, level, root) ==>
      forall f :: 0 <= f < |d.faces| ==> bags[f] == Closure(parent, level, root, Srcs(d, WalkFace(d, f).value))
  {
    forall f | 0 <= f < |d.faces|
      ensures bags[f] <= Closure(parent, level, root, Srcs(d, WalkFace(d, f).value))
      ensures PathsGood(tb.paths, parent, level, root) ==> bags[f] == Closure(parent, level, root, Srcs(d, WalkFace(d, f).value))
    {
      assert Filled(d, contains, tb, bags, adjacent, f);
      var walk := WalkFace(d, f).value;
      assert tb.bags[f] + Srcs(d, walk) == Srcs(d, walk);
      SrcsInRange(d, walk);
      WithPathsClosure(tb.paths, parent, level, root, Srcs(d, walk));
    }
  }

  /** A built bag holds its face's vertices; its adjacency is the dual
      graph's row for the face. */
  lemma FilledFaces(d: Dcel, contains: seq<bool>, tb: TdBuilder, bags: seq<set<nat>>, adjacent: seq<seq<nat>>)
    requires Walkable(d) && |contains| == |d.arcs| && |bags| == |d.faces| && |adjacent| == |d.faces|
    requires |tb.bags| == |d.faces| && |tb.adjacent| == |d.faces|
    requires forall f :: 0 <= f < |d.faces| ==> tb.bags[f] == {} && tb.adjacent[f] == []
    requires forall f :: 0 <= f < |d.faces| ==> Filled(d, contains, tb, bags, adjacent, f)
    ensures forall f :: 0 <= f < |d.faces| ==> Srcs(d, WalkFace(d, f).value) <= bags[f]
    ensures forall f :: 0 <= f < |d.faces| ==> adjacent[f] == TwinFaces(d, contains, WalkFace(d, f).value)
  {
    forall f | 0 <= f < |d.faces|
      ensures Srcs(d, WalkFace(d, f).value) <= bags[f]
      ensures adjacent[f] == TwinFaces(d, contains, WalkFace(d, f).value)
    {
      assert Filled(d, contains, tb, bags, adjacent, f);
      assert tb.bags[f] == {} && tb.adjacent[f] == [];
    }
  }

  /** Built from root paths, every bag is closed under taking the parent. */
  lemma FilledClosed(d: Dcel, contains: seq<bool>, tb: TdBuilder, bags: seq<set<nat>>, adjacent: seq<seq<nat>>,
                     parent: seq<nat>, level: seq<nat>, root: nat)
    requires Walkable(d) && SrcsIn(d) && |contains| == |d.arcs| && |parent| == |d.vertices|
    requires Rooted(parent, level, root) && PathsGood(tb.paths, parent, level, root)
    requires |tb.bags| == |d.faces| && |bags| == |d.faces|
    requires forall f :: 0 <= f < |d.faces| ==> tb.bags[f] == {}
    requires forall f :: 0 <= f < |d.faces| ==> Filled(d, contains, tb, bags, adjacent, f)
    ensures forall f, x :: 0 <= f < |d.faces| && x in bags[f] ==> x < |parent| && (x != root ==> parent[x] in bags[f])
  {
    forall f | 0 <= f < |d.faces|
      ensures forall x :: x in bags[f] ==> x < |parent| && (x != root ==> parent[x] in bags[f])
    {
      assert Filled(d, contains, tb, bags, adjacent, f);
      var walk := WalkFace(d, f).value;
      assert tb.bags[f] + Srcs(d, walk) == Srcs(d, walk);
      WithPathsClosed(tb.paths, parent, level, root, Srcs(d, walk));
    }
  }

  /** `SubTDBuilder::spanning_tree_contains`: a donut arc is a tree arc when
      the main-graph arc it stands for is; an arc with no original counts as
      a tree arc. */
  function SubSpanningTreeContains(donut: SubDcels.SubDcel, contains: seq<bool>, a: nat): (r: bool)
    requires forall k :: 0 <= k < |donut.arcMapping| ==> donut.arcMapping[k] < |contains|
    ensures SubDcels.GetOriginalArc(donut, a).None? ==> r
    ensures SubDcels.GetOriginalArc(donut, a).Some? ==> (r <==> contains[SubDcels.GetOriginalArc(donut, a).value])
  {
    match SubDcels.GetOriginalArc(donut, a)
    case Some(og) => contains[og]
    case None => true
  }
}
