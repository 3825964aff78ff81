/** Kernelisation reductions on a `QuickGraph`: isolated-clique removal and
    vertex folding, with the functions that carry an independent set of the
    reduced graph back to the original graph. */
module Reductions {
  import opened Wrappers
  import opened SetSeqs
  import opened ReductionUtils
  import opened QuickGraphs

  /** The state before a merge of `v` into `u`. */
  datatype MergeReduction = MergeReduction(oldGraph: seq<seq<nat>>, u: nat, v: nat)

  /** A removed vertex with its neighbour list at the time of removal. */
  datatype RemoveReduction = RemoveReduction(vertex: nat, neighborhood: seq<nat>)

  /** One isolated clique: the vertex that was found and every removal the
      clique's deletion made, in order. */
  datatype IsolatedClique = IsolatedClique(isolatedVertex: nat, removedVertices: seq<RemoveReduction>)

  // ---------------------------------------------------------------------
  // Isolated cliques

  /** Indexing the adjacency with a neighbour of `vertex` is in range. */
  predicate NeighborsInRange(g: QuickGraph, vertex: nat)
    requires vertex < |g.adjacency|
  {
    forall k :: 0 <= k < |g.adjacency[vertex]| ==> g.adjacency[vertex][k] < |g.adjacency|
  }

  /** Every neighbour of `vertex` lists every other neighbour of `vertex`. */
  predicate IsolatedCliqueAt(g: QuickGraph, vertex: nat)
    requires vertex < |g.adjacency| && NeighborsInRange(g, vertex)
  {
    var nb := g.adjacency[vertex];
    forall i, j :: 0 <= i < |nb| && 0 <= j < |nb| && nb[j] != nb[i] ==> nb[j] in g.adjacency[nb[i]]
  }

  /** `is_isolated_clique`: checks each neighbour's list against the
      other neighbours, stopping at the first miss. */
  method IsIsolatedClique(g: QuickGraph, vertex: nat) returns (b: bool)
    requires vertex < |g.adjacency| && NeighborsInRange(g, vertex)
    ensures b <==> IsolatedCliqueAt(g, vertex)
  {
    var nb := g.adjacency[vertex];
    for i := 0 to |nb|
      invariant forall i', j :: 0 <= i' < i && 0 <= j < |nb| && nb[j] != nb[i'] ==> nb[j] in g.adjacency[nb[i']]
    {
      var others := g.adjacency[nb[i]];
      var all := true;
      for j := 0 to |nb|
        invariant all <==> forall j' :: 0 <= j' < j && nb[j'] != nb[i] ==> nb[j'] in others
      {
        if nb[j] != nb[i] && nb[j] !in others {
          all := false;
        }
      }
      if !all {
        return false;
      }
    }
    return true;
  }

  /** The original vertices named by a sequence of removals, each index
      read in the graph of its moment; `None` when an index is out of range
      (the source panics). `alive` lists the surviving originals. */
  function Originals(alive: seq<nat>, removals: seq<nat>): (r: Option<seq<nat>>)
    ensures r.Some? ==> |r.value| == |removals|
    decreases |removals|
  {
    if removals == [] then Some([])
    else if removals[0] >= |alive| then None
    else
      var i := removals[0];
      match Originals(alive[..i] + alive[i + 1..], removals[1..])
      case None => None
      case Some(rest) => Some([alive[i]] + rest)
  }

  function Iota(n: nat): (r: seq<nat>)
    ensures |r| == n && forall i :: 0 <= i < n ==> r[i] == i
  {
    seq(n, i requires 0 <= i < n => i)
  }

  /** The elements of `alive` at the positions `nb`. */
  function Pick(alive: seq<nat>, nb: seq<nat>): (r: seq<nat>)
    requires forall k :: 0 <= k < |nb| ==> nb[k] < |alive|
    ensures |r| == |nb| && forall k :: 0 <= k < |nb| ==> r[k] == alive[nb[k]]
  {
    seq(|nb|, k requires 0 <= k < |nb| => alive[nb[k]])
  }

  /** The neighbour loop of `do_isolated_clique_reductions` as written:
      after popping and removing a neighbour, the remaining indices are
      shifted past `vertex`, which was removed earlier, instead of past the
      neighbour just removed. */
  function PopRemovalsAsWritten(nb: seq<nat>, vertex: nat): (r: seq<nat>)
    ensures |r| == |nb|
    decreases |nb|
  {
    if nb == [] then []
    else [nb[|nb| - 1]] + PopRemovalsAsWritten(DecreaseVertices(nb[..|nb| - 1], vertex), vertex)
  }

  /** The neighbour loop as evidently intended: the remaining indices are
      shifted past the neighbour just removed. */
  function PopRemovals(nb: seq<nat>): (r: seq<nat>)
    ensures |r| == |nb|
    decreases |nb|
  {
    if nb == [] then []
    else
      var p := nb[|nb| - 1];
      [p] + PopRemovals(DecreaseVertices(nb[..|nb| - 1], p))
  }

  /** The indices passed to `remove_vertex`, as written: `vertex`, then its
      neighbours from the last. */
  function CliqueRemovalsAsWritten(vertex: nat, nb: seq<nat>): (r: seq<nat>)
    ensures |r| == |nb| + 1 && r[0] == vertex
  {
    [vertex] + PopRemovalsAsWritten(DecreaseVertices(nb, vertex), vertex)
  }

  /** The indices passed to `remove_vertex`, corrected. */
  function CliqueRemovals(vertex: nat, nb: seq<nat>): (r: seq<nat>)
    ensures |r| == |nb| + 1 && r[0] == vertex
  {
    [vertex] + PopRemovals(DecreaseVertices(nb, vertex))
  }

  /** Renumbering past a removed position keeps pointing at the same
      surviving elements and keeps distinct positions distinct. */
  lemma PickAfterRemoval(alive: seq<nat>, nb: seq<nat>, p: nat)
    requires p < |alive| && p !in nb && Distinct(nb)
    requires forall k :: 0 <= k < |nb| ==> nb[k] < |alive|
    ensures var d := DecreaseVertices(nb, p);
            (forall k :: 0 <= k < |d| ==> d[k] < |alive| - 1) && Distinct(d)
    ensures var d := DecreaseVertices(nb, p);
            (forall k :: 0 <= k < |d| ==> d[k] < |alive| - 1) ==>
              Pick(alive[..p] + alive[p + 1..], d) == Pick(alive, nb)
  {
    var d := DecreaseVertices(nb, p);
    var alive2 := alive[..p] + alive[p + 1..];
    forall k | 0 <= k < |d|
      ensures d[k] < |alive| - 1 && alive2[d[k]] == alive[nb[k]]
    {
      assert nb[k] != p;
    }
    forall i, j | 0 <= i < j < |d|
      ensures d[i] != d[j]
    {
      assert nb[i] != p && nb[j] != p && nb[i] != nb[j];
    }
  }

  /** The corrected neighbour loop removes exactly the picked elements,
      last first. */
  lemma {:induction false} PopOriginals(alive: seq<nat>, nb: seq<nat>)
    requires Distinct(nb)
    requires forall k :: 0 <= k < |nb| ==> nb[k] < |alive|
    ensures Originals(alive, PopRemovals(nb)) == Some(Reverse(Pick(alive, nb)))
    decreases |nb|
  {
    if nb != [] {
      var p := nb[|nb| - 1];
      var rest := nb[..|nb| - 1];
      assert p !in rest;
      var d := DecreaseVertices(rest, p);
      var alive2 := alive[..p] + alive[p + 1..];
      PickAfterRemoval(alive, rest, p);
      PopOriginals(alive2, d);
      PopRemovalsLast(nb, p, rest, d);
      ReversePickLast(alive, nb, p, rest);
      OriginalsStep(alive, p, PopRemovals(d), Reverse(Pick(alive, rest)), alive2,
                    PopRemovals(nb), Reverse(Pick(alive, nb)));
    }
  }

  lemma PopRemovalsLast(nb: seq<nat>, p: nat, rest: seq<nat>, d: seq<nat>)
    requires nb != [] && p == nb[|nb| - 1] && rest == nb[..|nb| - 1]
    requires d == DecreaseVertices(rest, p)
    ensures PopRemovals(nb) == [p] + PopRemovals(d)
  {
  }

  lemma ReversePickLast(alive: seq<nat>, nb: seq<nat>, p: nat, rest: seq<nat>)
    requires forall k :: 0 <= k < |nb| ==> nb[k] < |alive|
    requires nb != [] && p == nb[|nb| - 1] && rest == nb[..|nb| - 1]
    ensures Reverse(Pick(alive, nb)) == [alive[p]] + Reverse(Pick(alive, rest))
  {
  }

  /** The corrected removals delete exactly `vertex` and then its
      neighbours, last first, when `vertex` is not its own neighbour and no
      neighbour is listed twice. */
  lemma CliqueRemovalsOriginals(n: nat, vertex: nat, nb: seq<nat>)
    requires vertex < n && vertex !in nb && Distinct(nb)
    requires forall k :: 0 <= k < |nb| ==> nb[k] < n
    ensures Originals(Iota(n), CliqueRemovals(vertex, nb)) == Some([vertex] + Reverse(nb))
  {
    var alive := Iota(n);
    var d := DecreaseVertices(nb, vertex);
    var alive2 := alive[..vertex] + alive[vertex + 1..];
    PickAfterRemoval(alive, nb, vertex);
    assert Pick(alive, nb) == nb;
    PopOriginals(alive2, d);
    var removals := CliqueRemovals(vertex, nb);
    assert removals[1..] == PopRemovals(d);
  }

  /** Vertex 0 with neighbours [3, 4, 1] in a graph of five vertices: the
      loop as written deletes original vertex 2, which is not in the clique,
      and keeps 3; the corrected loop deletes 0, 1, 4, 3. */
  lemma CliqueRemovalsAsWrittenWrong()
    ensures CliqueRemovalsAsWritten(0, [3, 4, 1]) == [0, 0, 2, 0]
    ensures Originals(Iota(5), CliqueRemovalsAsWritten(0, [3, 4, 1])) == Some([0, 1, 4, 2])
    ensures Originals(Iota(5), CliqueRemovals(0, [3, 4, 1])) == Some([0, 1, 4, 3])
  {
    AsWrittenIndices();
    AsWrittenOriginals();
    CorrectedOriginals();
  }

  lemma AsWrittenIndices()
    ensures CliqueRemovalsAsWritten(0, [3, 4, 1]) == [0, 0, 2, 0]
  {
    assert DecreaseVertices([3, 4, 1], 0) == [2, 3, 0];
    assert DecreaseVertices([2, 3], 0) == [1, 2];
    assert DecreaseVertices([1], 0) == [0];
    assert PopRemovalsAsWritten([0], 0) == [0];
    assert PopRemovalsAsWritten([1, 2], 0) == [2] + PopRemovalsAsWritten([0], 0);
    assert PopRemovalsAsWritten([2, 3, 0], 0) == [0] + PopRemovalsAsWritten([1, 2], 0);
  }

  lemma AsWrittenOriginals()
    ensures Originals(Iota(5), [0, 0, 2, 0]) == Some([0, 1, 4, 2])
  {
    assert Iota(5) == [0, 1, 2, 3, 4];
    AsWrittenOriginalsTail();
    OriginalsStep([1, 2, 3, 4], 0, [2, 0], [4, 2], [2, 3, 4], [0, 2, 0], [1, 4, 2]);
    OriginalsStep([0, 1, 2, 3, 4], 0, [0, 2, 0], [1, 4, 2], [1, 2, 3, 4], [0, 0, 2, 0], [0, 1, 4, 2]);
  }

  lemma AsWrittenOriginalsTail()
    ensures Originals([2, 3, 4], [2, 0]) == Some([4, 2])
  {
    OriginalsStep([2, 3], 0, [], [], [3], [0], [2]);
    OriginalsStep([2, 3, 4], 2, [0], [2], [2, 3], [2, 0], [4, 2]);
  }

  lemma CorrectedOriginals()
    ensures Originals(Iota(5), CliqueRemovals(0, [3, 4, 1])) == Some([0, 1, 4, 3])
  {
    CliqueRemovalsOriginals(5, 0, [3, 4, 1]);
    var rev := Reverse([3, 4, 1]);
    assert rev == [1, 4, 3];
    assert [0] + rev == [0, 1, 4, 3];
  }

  /** One removal read back: the removed index names `alive[i]`. */
  lemma OriginalsStep(alive: seq<nat>, i: nat, rest: seq<nat>, tail: seq<nat>,
                      alive2: seq<nat>, removals: seq<nat>, out: seq<nat>)
    requires i < |alive| && alive2 == alive[..i] + alive[i + 1..]
    requires Originals(alive2, rest) == Some(tail)
    requires removals == [i] + rest && out == [alive[i]] + tail
    ensures Originals(alive, removals) == Some(out)
  {
    assert removals[1..] == rest;
  }

  /** `remove_vertex_reversible`: records the vertex and its neighbour list,
      then removes it with `remove_vertex` as written. `None` where the
      source panics: an index out of range, or a neighbour list longer than
      the edge counter, whose `usize` subtraction underflows. */
  function RemoveVertexReversible(g: QuickGraph, u: nat): (r: Option<(QuickGraph, RemoveReduction)>)
    ensures r.None? <==> u >= |g.adjacency| || |g.adjacency[u]| > g.edgeCount
    ensures r.Some? ==> r.value.1.vertex == u && r.value.1.neighborhood == g.adjacency[u]
    ensures r.Some? ==> |r.value.0.adjacency| + 1 == |g.adjacency| &&
                        r.value.0.edgeCount + |g.adjacency[u]| == g.edgeCount
    ensures r.Some? ==> forall a, b :: 0 <= a < |r.value.0.adjacency| ==>
              (AreAdjacent(r.value.0, a, b) <==>
                AreAdjacent(g, Unshift(a, u), Unshift(b, u)) || (b == u && AreAdjacent(g, Unshift(a, u), u)))
  {
    if u >= |g.adjacency| || |g.adjacency[u]| > g.edgeCount then None
    else
      forall a, b | 0 <= a < |g.adjacency| - 1
        ensures AreAdjacent(RemoveVertexAsWritten(g, u), a, b) <==>
          AreAdjacent(g, Unshift(a, u), Unshift(b, u)) || (b == u && AreAdjacent(g, Unshift(a, u), u))
      {
        RemoveVertexAsWrittenAdjacent(g, u, a, b);
      }
      Some((RemoveVertexAsWritten(g, u), RemoveReduction(u, g.adjacency[u])))
  }

  /** The neighbour-list lengths of a list of removal records. */
  function RemovedDegrees(rs: seq<RemoveReduction>): nat
    decreases |rs|
  {
    if rs == [] then 0 else |rs[0].neighborhood| + RemovedDegrees(rs[1..])
  }

  /** Removes the given indices one after the other with `remove_vertex` as
      written, recording each; `None` at the first removal that panics. The
      edge counter drops by the recorded list lengths. */
  function RemoveAll(g: QuickGraph, removals: seq<nat>): (r: Option<(QuickGraph, seq<RemoveReduction>)>)
    ensures r.Some? ==> |r.value.0.adjacency| + |removals| == |g.adjacency|
    ensures r.Some? ==> VertexIds(r.value.1) == removals
    ensures r.Some? ==> r.value.0.edgeCount + RemovedDegrees(r.value.1) == g.edgeCount
    ensures r.Some? && removals != [] ==>
      removals[0] < |g.adjacency| && r.value.1[0].neighborhood == g.adjacency[removals[0]]
    decreases |removals|
  {
    if removals == [] then Some((g, []))
    else
      match RemoveVertexReversible(g, removals[0])
      case None => None
      case Some(step) =>
        match RemoveAll(step.0, removals[1..])
        case None => None
        case Some(res) =>
          assert ([step.1] + res.1)[1..] == res.1;
          Some((res.0, [step.1] + res.1))
  }

  /** `is_isolated_clique` from the `k`-th neighbour on, as written: each
      neighbour's list is looked up in turn (`None`, a panic, when that
      neighbour is not a vertex) and the check stops with `false` at the
      first list missing another neighbour. */
  function CliqueCheck(g: QuickGraph, vertex: nat, k: nat): (r: Option<bool>)
    requires vertex < |g.adjacency|
    ensures NeighborsInRange(g, vertex) ==> r.Some?
    ensures r == Some(true) ==> forall i, j ::
      (k <= i < |g.adjacency[vertex]| && 0 <= j < |g.adjacency[vertex]| &&
       g.adjacency[vertex][j] != g.adjacency[vertex][i]) ==>
        g.adjacency[vertex][i] < |g.adjacency| && g.adjacency[vertex][j] in g.adjacency[g.adjacency[vertex][i]]
    ensures NeighborsInRange(g, vertex) && r == Some(false) ==>
      exists i, j :: k <= i < |g.adjacency[vertex]| && 0 <= j < |g.adjacency[vertex]| &&
        g.adjacency[vertex][j] != g.adjacency[vertex][i] && g.adjacency[vertex][j] !in g.adjacency[g.adjacency[vertex][i]]
    decreases |g.adjacency[vertex]| - k
  {
    var nb := g.adjacency[vertex];
    if k >= |nb| then Some(true)
    else if nb[k] >= |g.adjacency| then None
    else if exists j :: 0 <= j < |nb| && nb[j] != nb[k] && nb[j] !in g.adjacency[nb[k]] then Some(false)
    else CliqueCheck(g, vertex, k + 1)
  }

  /** On a graph whose lists name vertices the check as written decides
      `IsolatedCliqueAt`. */
  lemma CliqueCheckDecides(g: QuickGraph, vertex: nat)
    requires vertex < |g.adjacency| && NeighborsInRange(g, vertex)
    ensures CliqueCheck(g, vertex, 0) == Some(IsolatedCliqueAt(g, vertex))
  {
    var r := CliqueCheck(g, vertex, 0);
    var nb := g.adjacency[vertex];
    if !r.value {
      var i, j :| 0 <= i < |nb| && 0 <= j < |nb| && nb[j] != nb[i] && nb[j] !in g.adjacency[nb[i]];
      assert !IsolatedCliqueAt(g, vertex);
    } else {
      assert IsolatedCliqueAt(g, vertex);
    }
  }

  /** `(from..n).find(is_isolated_clique)`: the first vertex whose check
      says `true`; `Panic` when a check before it panics. */
  function FirstCliqueFrom(g: QuickGraph, from: nat): (r: Scan)
    ensures r.Found? ==> from <= r.at < |g.adjacency| && CliqueCheck(g, r.at, 0) == Some(true)
    ensures r.Found? ==> forall w :: from <= w < r.at ==> CliqueCheck(g, w, 0) == Some(false)
    ensures r.NotFound? ==> forall w :: from <= w < |g.adjacency| ==> CliqueCheck(g, w, 0) == Some(false)
    ensures r.Panic? ==> exists w :: from <= w < |g.adjacency| && CliqueCheck(g, w, 0).None?
    decreases |g.adjacency| - from
  {
    if from >= |g.adjacency| then NotFound
    else match CliqueCheck(g, from, 0)
      case None => Panic
      case Some(true) => Found(from)
      case Some(false) => FirstCliqueFrom(g, from + 1)
  }

  /** With every list naming vertices the scan as written never panics and
      finds the same vertex as the reference search. */
  lemma {:induction false} FirstCliqueAgrees(g: QuickGraph, from: nat)
    requires Bounded(g.adjacency)
    ensures !FirstCliqueFrom(g, from).Panic?
    ensures FirstCliqueFrom(g, from).Found? <==> FirstIsolatedClique(g, from).Some?
    ensures FirstCliqueFrom(g, from).Found? ==> FirstCliqueFrom(g, from).at == FirstIsolatedClique(g, from).value
    decreases |g.adjacency| - from
  {
    if from < |g.adjacency| {
      CliqueCheckDecides(g, from);
      FirstCliqueAgrees(g, from + 1);
    }
  }

  /** One round of `do_isolated_clique_reductions` on `vertex`, as written:
      `vertex` is removed, then its neighbours from the last, each index
      renumbered past `vertex` only; `None` when a removal panics. */
  function IsolatedCliqueRound(g: QuickGraph, vertex: nat): (r: Option<(QuickGraph, IsolatedClique)>)
    requires vertex < |g.adjacency|
    ensures r.Some? ==> |r.value.0.adjacency| + |g.adjacency[vertex]| + 1 == |g.adjacency|
    ensures r.Some? ==> r.value.1.isolatedVertex == vertex &&
                        VertexIds(r.value.1.removedVertices) == CliqueRemovalsAsWritten(vertex, g.adjacency[vertex]) &&
                        r.value.1.removedVertices[0] == RemoveReduction(vertex, g.adjacency[vertex])
    ensures r.Some? ==> r.value.0.edgeCount + RemovedDegrees(r.value.1.removedVertices) == g.edgeCount
  {
    match RemoveAll(g, CliqueRemovalsAsWritten(vertex, g.adjacency[vertex]))
    case None => None
    case Some(res) => Some((res.0, IsolatedClique(vertex, res.1)))
  }

  /** `do_isolated_clique_reductions` as written: rounds on the first vertex
      the check accepts until it accepts none; `None` when a check or a
      removal panics. On success no vertex is left that the check accepts,
      and every record starts with its isolated vertex. */
  function IsolatedCliqueReductions(g: QuickGraph): (r: Option<(QuickGraph, seq<IsolatedClique>)>)
    ensures r.Some? ==> forall w :: 0 <= w < |r.value.0.adjacency| ==> CliqueCheck(r.value.0, w, 0) == Some(false)
    ensures r.Some? ==> forall k :: 0 <= k < |r.value.1| ==> CliqueRecord(r.value.1[k])
    ensures r.Some? ==> r.value.0.edgeCount <= g.edgeCount && |r.value.0.adjacency| <= |g.adjacency|
    decreases |g.adjacency|
  {
    match FirstCliqueFrom(g, 0)
    case Panic => None
    case NotFound => Some((g, []))
    case Found(vertex) =>
      match IsolatedCliqueRound(g, vertex)
      case None => None
      case Some(round) =>
        match IsolatedCliqueReductions(round.0)
        case None => None
        case Some(rest) =>
          assert CliqueRecord(round.1);
          Some((rest.0, [round.1] + rest.1))
  }

  /** The single edge {0, 1}: the round on vertex 0 removes 0, which leaves
      vertex 1 (now 0) listing itself with the counter at 0, and then removes
      index 0 again, whose one-entry list underflows the counter: the source
      panics where the intended reduction empties the graph. */
  lemma IsolatedCliqueReductionsPanics()
    ensures Valid(QuickGraph([[1], [0]], 1))
    ensures FirstCliqueFrom(QuickGraph([[1], [0]], 1), 0) == Found(0)
    ensures CliqueRemovalsAsWritten(0, [1]) == [0, 0]
    ensures IsolatedCliqueReductions(QuickGraph([[1], [0]], 1)).None?
  {
    var g := QuickGraph([[1], [0]], 1);
    RemoveVertexAsWrittenBreaks();
    assert CliqueCheck(g, 0, 1) == Some(true);
    assert CliqueCheck(g, 0, 0) == Some(true);
    assert DecreaseVertices([1], 0) == [0];
    assert DecreaseVertices([], 0) == [];
    assert PopRemovalsAsWritten([0], 0) == [0];
    var h := QuickGraph([[0]], 0);
    assert RemoveVertexReversible(g, 0) == Some((h, RemoveReduction(0, [1])));
    assert RemoveVertexReversible(h, 0).None?;
    assert RemoveAll(g, [0, 0]).None?;
  }

  /** A round on a vertex with no neighbours in a valid graph is the same as
      written and as intended. */
  lemma IsolatedVertexRoundAgrees(g: QuickGraph, vertex: nat)
    requires Valid(g) && vertex < |g.adjacency| && g.adjacency[vertex] == []
    ensures IsolatedCliqueRound(g, vertex) == IsolatedCliqueRoundCorrected(g, vertex)
    ensures IsolatedCliqueRound(g, vertex).Some?
  {
    var own := g.adjacency[vertex];
    forall i | 0 <= i < |g.adjacency|
      ensures vertex !in g.adjacency[i]
    {
      assert vertex in g.adjacency[i] ==> i in own;
    }
    ValidDegree(g, vertex);
    RemoveVertexAgrees(g, vertex);
    RemoveVertexValid(g, vertex);
    assert CliqueRemovalsAsWritten(vertex, []) == [vertex] == CliqueRemovals(vertex, []);
    var h := RemoveVertex(g, vertex);
    var rec := RemoveReduction(vertex, []);
    assert [vertex][1..] == [];
    assert RemoveVertexReversible(g, vertex) == Some((h, rec));
    assert RemoveVertexReversibleCorrected(g, vertex) == (h, rec);
    assert RemoveAll(h, []) == Some((h, [])) && [rec] + [] == [rec];
    assert RemoveAll(g, [vertex]) == Some((h, [rec]));
    assert RemoveAllCorrected(g, [vertex]) == Some((h, [rec]));
  }

  /** `remove_vertex_reversible` with the corrected removal: records the
      vertex and its neighbour list, then removes it. */
  function RemoveVertexReversibleCorrected(g: QuickGraph, u: nat): (r: (QuickGraph, RemoveReduction))
    requires u < |g.adjacency| && |g.adjacency[u]| <= g.edgeCount
    ensures r.1.vertex == u && r.1.neighborhood == g.adjacency[u]
    ensures |r.0.adjacency| + 1 == |g.adjacency|
    ensures forall a, b :: 0 <= a < |r.0.adjacency| ==>
              (AreAdjacent(r.0, a, b) <==> AreAdjacent(g, Unshift(a, u), Unshift(b, u)))
  {
    forall a, b | 0 <= a < |g.adjacency| - 1
      ensures AreAdjacent(RemoveVertex(g, u), a, b) <==> AreAdjacent(g, Unshift(a, u), Unshift(b, u))
    {
      RemoveVertexAdjacent(g, u, a, b);
    }
    (RemoveVertex(g, u), RemoveReduction(u, g.adjacency[u]))
  }

  /** The vertex indices of a list of removal records. */
  function VertexIds(rs: seq<RemoveReduction>): (r: seq<nat>)
    ensures |r| == |rs| && forall k :: 0 <= k < |rs| ==> r[k] == rs[k].vertex
  {
    seq(|rs|, k requires 0 <= k < |rs| => rs[k].vertex)
  }

  /** Removes the given indices one after the other with the corrected
      removal, recording each; `None` when an index is out of range at its
      moment. */
  function RemoveAllCorrected(g: QuickGraph, removals: seq<nat>): (r: Option<(QuickGraph, seq<RemoveReduction>)>)
    requires Valid(g)
    ensures r.Some? ==> Valid(r.value.0)
    ensures r.Some? ==> |r.value.0.adjacency| + |removals| == |g.adjacency|
    ensures r.Some? ==> VertexIds(r.value.1) == removals
    decreases |removals|
  {
    if removals == [] then Some((g, []))
    else if removals[0] >= |g.adjacency| then None
    else
      var u := removals[0];
      RemoveVertexValid(g, u);
      var step := RemoveVertexReversibleCorrected(g, u);
      match RemoveAllCorrected(step.0, removals[1..])
      case None => None
      case Some(res) => Some((res.0, [step.1] + res.1))
  }

  /** The removals go through exactly when every index is in range at its
      moment, which depends only on the number of vertices. */
  lemma {:induction false} RemoveAllCorrectedDefined(g: QuickGraph, removals: seq<nat>, alive: seq<nat>)
    requires Valid(g) && |alive| == |g.adjacency|
    ensures RemoveAllCorrected(g, removals).Some? <==> Originals(alive, removals).Some?
    decreases |removals|
  {
    if removals != [] && removals[0] < |g.adjacency| {
      var u := removals[0];
      RemoveVertexValid(g, u);
      RemoveAllCorrectedDefined(RemoveVertex(g, u), removals[1..], alive[..u] + alive[u + 1..]);
    }
  }

  /** One round of `do_isolated_clique_reductions` on `vertex`, corrected:
      `vertex` and then its neighbours are removed, each recorded. */
  function IsolatedCliqueRoundCorrected(g: QuickGraph, vertex: nat): (r: Option<(QuickGraph, IsolatedClique)>)
    requires Valid(g) && vertex < |g.adjacency|
    ensures r.Some? ==> Valid(r.value.0)
    ensures r.Some? ==> |r.value.0.adjacency| + |g.adjacency[vertex]| + 1 == |g.adjacency|
    ensures r.Some? ==> r.value.1.isolatedVertex == vertex &&
                        VertexIds(r.value.1.removedVertices) == CliqueRemovals(vertex, g.adjacency[vertex]) &&
                        r.value.1.removedVertices[0] == RemoveReduction(vertex, g.adjacency[vertex])
  {
    match RemoveAllCorrected(g, CliqueRemovals(vertex, g.adjacency[vertex]))
    case None => None
    case Some(res) => Some((res.0, IsolatedClique(vertex, res.1)))
  }

  /** On a valid graph a round always goes through, and it deletes exactly
      the original vertex and its neighbours. */
  lemma IsolatedCliqueRoundCorrectedRemoves(g: QuickGraph, vertex: nat)
    requires Valid(g) && vertex < |g.adjacency|
    ensures IsolatedCliqueRoundCorrected(g, vertex).Some?
    ensures Originals(Iota(|g.adjacency|), CliqueRemovals(vertex, g.adjacency[vertex])) ==
              Some([vertex] + Reverse(g.adjacency[vertex]))
  {
    var nb := g.adjacency[vertex];
    CliqueRemovalsOriginals(|g.adjacency|, vertex, nb);
    RemoveAllCorrectedDefined(g, CliqueRemovals(vertex, nb), Iota(|g.adjacency|));
  }

  /** The first vertex from `from` on that is an isolated clique. */
  function FirstIsolatedClique(g: QuickGraph, from: nat): (r: Option<nat>)
    requires Bounded(g.adjacency)
    ensures r.Some? ==> from <= r.value < |g.adjacency| && IsolatedCliqueAt(g, r.value)
    ensures r.Some? ==> forall w :: from <= w < r.value ==> !IsolatedCliqueAt(g, w)
    ensures r.None? ==> forall w :: from <= w < |g.adjacency| ==> !IsolatedCliqueAt(g, w)
    decreases |g.adjacency| - from
  {
    if from >= |g.adjacency| then None
    else if IsolatedCliqueAt(g, from) then Some(from)
    else FirstIsolatedClique(g, from + 1)
  }

  /** `do_isolated_clique_reductions` with the corrected removals: repeats
      rounds on the first isolated clique until none is left. */
  function IsolatedCliqueReductionsCorrected(g: QuickGraph): (r: (QuickGraph, seq<IsolatedClique>))
    requires Valid(g)
    ensures Valid(r.0)
    ensures forall w :: 0 <= w < |r.0.adjacency| ==> !IsolatedCliqueAt(r.0, w)
    ensures forall k :: 0 <= k < |r.1| ==>
              |r.1[k].removedVertices| > 0 && r.1[k].removedVertices[0].vertex == r.1[k].isolatedVertex
    decreases |g.adjacency|
  {
    match FirstIsolatedClique(g, 0)
    case None => (g, [])
    case Some(vertex) =>
      IsolatedCliqueRoundCorrectedRemoves(g, vertex);
      var round := IsolatedCliqueRoundCorrected(g, vertex).value;
      var rest := IsolatedCliqueReductionsCorrected(round.0);
      (rest.0, [round.1] + rest.1)
  }

  /** A clique record as a round produces it: its first removal is the
      isolated vertex itself. */
  predicate CliqueRecord(c: IsolatedClique) {
    |c.removedVertices| > 0 && c.removedVertices[0].vertex == c.isolatedVertex
  }

  /** One clique of `transfer_independence_set_isolated_clique`: every
      removed vertex is put back, the last first, and then the isolated
      vertex joins the set. */
  function RestoreClique(independenceSet: seq<nat>, c: IsolatedClique): (r: seq<nat>)
    ensures |r| == |independenceSet| + 1 && r[|independenceSet|] == c.isolatedVertex
  {
    Restore(independenceSet, VertexIds(c.removedVertices)) + [c.isolatedVertex]
  }

  /** `transfer_independence_set_isolated_clique`: cliques are undone from
      the last recorded one; the graph side (`insert_vertex`) is not part of
      this model. */
  function TransferIsolatedCliques(independenceSet: seq<nat>, cliques: seq<IsolatedClique>): (r: seq<nat>)
    ensures |r| == |independenceSet| + |cliques|
    decreases |cliques|
  {
    if cliques == [] then independenceSet
    else TransferIsolatedCliques(RestoreClique(independenceSet, cliques[|cliques| - 1]), cliques[..|cliques| - 1])
  }

  lemma IncreaseDistinct(xs: seq<nat>, v: nat)
    requires Distinct(xs)
    ensures Distinct(IncreaseVertices(xs, v))
  {
    var r := IncreaseVertices(xs, v);
    forall i, j | 0 <= i < j < |r|
      ensures r[i] != r[j]
    {
      assert xs[i] != xs[j];
    }
  }

  lemma {:induction false} RestoreDistinct(xs: seq<nat>, removed: seq<nat>)
    requires Distinct(xs)
    ensures Distinct(Restore(xs, removed))
    ensures removed != [] ==> removed[0] !in Restore(xs, removed)
    decreases |removed|
  {
    if removed != [] {
      RestoreDistinct(xs, removed[1..]);
      IncreaseDistinct(Restore(xs, removed[1..]), removed[0]);
    }
  }

  /** Undoing well-formed clique records keeps a duplicate-free set
      duplicate-free: each isolated vertex is free when it is added. */
  lemma {:induction false} TransferIsolatedCliquesDistinct(independenceSet: seq<nat>, cliques: seq<IsolatedClique>)
    requires Distinct(independenceSet)
    requires forall k :: 0 <= k < |cliques| ==> CliqueRecord(cliques[k])
    ensures Distinct(TransferIsolatedCliques(independenceSet, cliques))
    decreases |cliques|
  {
    if cliques != [] {
      var c := cliques[|cliques| - 1];
      assert CliqueRecord(c);
      var ids := VertexIds(c.removedVertices);
      RestoreDistinct(independenceSet, ids);
      var restored := Restore(independenceSet, ids);
      DistinctAppend(restored, c.isolatedVertex);
      TransferIsolatedCliquesDistinct(RestoreClique(independenceSet, c), cliques[..|cliques| - 1]);
    }
  }

  // ---------------------------------------------------------------------
  // Vertex folding

  /** A vertex of degree two whose neighbours are not adjacent; `None`-free
      only when its first neighbour indexes the adjacency. */
  predicate FoldCandidate(adj: seq<seq<nat>>, w: nat) {
    w < |adj| && |adj[w]| == 2 && adj[w][0] < |adj| && adj[w][1] !in adj[adj[w][0]]
  }

  /** Outcome of the `position` search. */
  datatype Scan = Found(at: nat) | NotFound | Panic

  /** `adjacency.iter().position(..)` for a fold candidate from `from` on;
      `Panic` when a degree-two vertex's first neighbour is out of range
      before any candidate is found. */
  function FirstFold(adj: seq<seq<nat>>, from: nat): (r: Scan)
    ensures r.Found? ==> from <= r.at && FoldCandidate(adj, r.at)
    ensures r.Found? ==> forall w :: from <= w < r.at ==> !FoldCandidate(adj, w)
    ensures r.NotFound? ==> forall w :: from <= w < |adj| ==> !FoldCandidate(adj, w)
    decreases |adj| - from
  {
    if from >= |adj| then NotFound
    else if |adj[from]| == 2 && adj[from][0] >= |adj| then Panic
    else if FoldCandidate(adj, from) then Found(from)
    else FirstFold(adj, from + 1)
  }

  /** `merge_vertices_reversible`: keeps a copy of the adjacency and merges
      with the supplied merge operation, which is not part of this model. */
  function MergeVerticesReversible(g: QuickGraph, u: nat, v: nat, merge: (QuickGraph, nat, nat) -> QuickGraph)
    : (r: (QuickGraph, MergeReduction))
    ensures r.1 == MergeReduction(g.adjacency, u, v)
    ensures r.0 == merge(g, u, v)
  {
    (merge(g, u, v), MergeReduction(g.adjacency, u, v))
  }

  /** Two consecutive records of one fold: the candidate merged with its
      first neighbour, then (renumbered) with its second. */
  predicate FoldPair(a: MergeReduction, b: MergeReduction) {
    FoldCandidate(a.oldGraph, a.u) && a.v == a.oldGraph[a.u][0] &&
    b.u == Shift(a.u, a.v) && b.v == Shift(a.oldGraph[a.u][1], a.v)
  }

  /** Records that come in fold pairs. */
  predicate FoldRecords(rs: seq<MergeReduction>)
    decreases |rs|
  {
    rs == [] || (|rs| >= 2 && FoldPair(rs[0], rs[1]) && FoldRecords(rs[2..]))
  }

  lemma {:induction false} FoldRecordsEven(rs: seq<MergeReduction>)
    requires FoldRecords(rs)
    ensures |rs| % 2 == 0
    decreases |rs|
  {
    if rs != [] {
      FoldRecordsEven(rs[2..]);
    }
  }

  /** `do_vertice_fold_reduction`: while some vertex is a fold candidate,
      merge its first neighbour into it and then its second. `fuel` bounds
      the rounds; `None` on a panic or when the fuel runs out. */
  function FoldReductions(g: QuickGraph, merge: (QuickGraph, nat, nat) -> QuickGraph, fuel: nat)
    : (r: Option<seq<MergeReduction>>)
    ensures r.Some? ==> FoldRecords(r.value)
    decreases fuel
  {
    if fuel == 0 then None
    else
      match FirstFold(g.adjacency, 0)
      case NotFound => Some([])
      case Panic => None
      case Found(x) =>
        var nb := g.adjacency[x];
        var m1 := MergeVerticesReversible(g, x, nb[0], merge);
        var m2 := MergeVerticesReversible(m1.0, Shift(x, nb[0]), Shift(nb[1], nb[0]), merge);
        match FoldReductions(m2.0, merge, fuel - 1)
        case None => None
        case Some(rest) =>
          var rs := [m1.1, m2.1] + rest;
          assert rs[2..] == rest;
          Some(rs)
  }

  /** Two records are undone together: `result` is shifted back past the
      second and first neighbour, then either the folded vertex is traded
      for its two neighbours or it joins the set. */
  function FoldBack(result: seq<nat>, first: MergeReduction, second: MergeReduction): (r: seq<nat>)
    ensures var lifted := IncreaseVertices(IncreaseVertices(result, second.v), first.v);
            (first.u !in lifted ==> first.u in r) &&
            (first.u in lifted ==> first.v in r && Unshift(second.v, first.v) in r)
    ensures var lifted := IncreaseVertices(IncreaseVertices(result, second.v), first.v);
            forall x :: x in r <==>
              (x in lifted && x != first.u) ||
              (first.u !in lifted && x == first.u) ||
              (first.u in lifted && (x == first.v || x == Unshift(second.v, first.v)))
  {
    var lifted := IncreaseVertices(IncreaseVertices(result, second.v), first.v);
    var secondNeighbor := Unshift(second.v, first.v);
    if first.u in lifted then Without(lifted, first.u) + [first.v, secondNeighbor]
    else lifted + [first.u]
  }

  /** Undoing a fold on a duplicate-free set adds exactly one vertex: either
      the folded vertex, or its two neighbours in place of it. */
  lemma FoldBackGrows(result: seq<nat>, first: MergeReduction, second: MergeReduction)
    requires Distinct(result)
    ensures Distinct(FoldBack(result, first, second))
    ensures |FoldBack(result, first, second)| == |result| + 1
    ensures var lifted := IncreaseVertices(IncreaseVertices(result, second.v), first.v);
            first.u in lifted <==> first.u !in FoldBack(result, first, second)
  {
    var l1 := IncreaseVertices(result, second.v);
    var lifted := IncreaseVertices(l1, first.v);
    var sn := Unshift(second.v, first.v);
    IncreaseDistinct(result, second.v);
    IncreaseDistinct(l1, first.v);
    assert sn !in lifted;
    if first.u in lifted {
      WithoutDistinct(lifted, first.u);
      var w := Without(lifted, first.u);
      DistinctAppend(w, first.v);
      DistinctAppend(w + [first.v], sn);
      assert w + [first.v] + [sn] == w + [first.v, sn];
    } else {
      DistinctAppend(lifted, first.u);
    }
  }

  /** `transfer_independence_set_vertex_fold`: records are undone in pairs
      from the end; an odd record left over is dropped. Each undone fold
      adds one vertex to a duplicate-free set, which is the size relation a
      vertex fold promises (one more in the original graph's maximum
      independent set). */
  function TransferFold(independenceSet: seq<nat>, rs: seq<MergeReduction>): (r: seq<nat>)
    ensures Distinct(independenceSet) ==> Distinct(r) && |r| == |independenceSet| + |rs| / 2
    decreases |rs|
  {
    if |rs| < 2 then independenceSet
    else
      var next := FoldBack(independenceSet, rs[|rs| - 2], rs[|rs| - 1]);
      if Distinct(independenceSet) then
        FoldBackGrows(independenceSet, rs[|rs| - 2], rs[|rs| - 1]);
        TransferFold(next, rs[..|rs| - 2])
      else TransferFold(next, rs[..|rs| - 2])
  }
}
