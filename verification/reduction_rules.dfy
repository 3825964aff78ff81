/** The stand-alone reduction rules: twin reduction, nodal fold and
    isolated clique. Each rule records what it did while shrinking the
    graph, and a transfer function later turns an independent set of the
    reduced graph back into one of the original graph. These rules work on
    a graph whose neighbour lists are optional (a deleted vertex keeps its
    slot as `None`); the graph edits themselves are not modelled, only the
    records and the transfers. */
module ReductionRules {
  import opened Wrappers
  import opened SetSeqs
  import opened QuickGraphs

  /** Neighbour lists of a graph whose deleted vertices are `None`. */
  type OptAdjacency = seq<Option<seq<nat>>>

  // ---------------------------------------------------------------------
  // Search for the first vertex a rule applies to

  /** The least index below `n` satisfying `p`, searching from `i`. */
  function FirstFrom(i: nat, n: nat, p: nat -> bool): (r: Option<nat>)
    requires i <= n
    ensures r.Some? ==> i <= r.value < n && p(r.value) &&
                        forall j :: i <= j < r.value ==> !p(j)
    ensures r.None? ==> forall j :: i <= j < n ==> !p(j)
    decreases n - i
  {
    if i == n then None
    else if p(i) then Some(i)
    else FirstFrom(i + 1, n, p)
  }

  /** `(0..n).find(p)` / `iter().position(p)`: the least index satisfying
      `p`, if any. */
  function FirstWhere(n: nat, p: nat -> bool): (r: Option<nat>)
    ensures r.Some? ==> r.value < n && p(r.value) && forall j :: 0 <= j < r.value ==> !p(j)
    ensures r.None? ==> forall j :: 0 <= j < n ==> !p(j)
  {
    FirstFrom(0, n, p)
  }

  // ---------------------------------------------------------------------
  // Twin reduction

  /** Two twins `u`, `v` of degree three, their common neighbour list and
      whether those three neighbours are mutually adjacent. */
  datatype TwinReduction = TwinReduction(u: nat, v: nat, neighborhood: seq<nat>, adjacentNeighbors: bool)

  /** The record `do_twin_reductions` builds for the twins `u`, `v` reported
      by the twin finder. Mutual adjacency of three vertices is a graph
      query outside this model, passed in as `triple`. `None` is the panic
      on a deleted `u` or on fewer than three neighbours. */
  function TwinRecord(adj: OptAdjacency, u: nat, v: nat, triple: (nat, nat, nat) -> bool): (r: Option<TwinReduction>)
    requires u < |adj|
    ensures r.Some? <==> adj[u].Some? && |adj[u].value| >= 3
    ensures r.Some? ==> r.value.u == u && r.value.v == v && r.value.neighborhood == adj[u].value
    ensures r.Some? ==> var nb := r.value.neighborhood;
                        r.value.adjacentNeighbors == triple(nb[0], nb[1], nb[2])
  {
    match adj[u]
    case None => None
    case Some(nb) =>
      if |nb| < 3 then None
      else Some(TwinReduction(u, v, nb, triple(nb[0], nb[1], nb[2])))
  }

  /** The transfer reads `neighborhood[0]` only when the neighbours are not
      mutually adjacent. */
  predicate TwinReadable(red: TwinReduction) {
    red.adjacentNeighbors || red.neighborhood != []
  }

  predicate AllTwinReadable(reductions: seq<TwinReduction>) {
    forall k :: 0 <= k < |reductions| ==> TwinReadable(reductions[k])
  }

  /** The vertices one twin reduction may add to the set. */
  function TwinOffer(red: TwinReduction): (s: set<nat>)
    ensures red.u in s && red.v in s
  {
    {red.u, red.v} + (if red.neighborhood == [] then {} else Set(red.neighborhood[1..]))
  }

  function TwinOffers(reductions: seq<TwinReduction>): set<nat>
  {
    if reductions == [] then {}
    else TwinOffers(reductions[..|reductions| - 1]) + TwinOffer(reductions[|reductions| - 1])
  }

  /** One reduction undone: both twins join the set, unless the neighbours
      are not mutually adjacent and the first one is already in it, in
      which case the other neighbours join. */
  function TwinStep(result: seq<nat>, red: TwinReduction): (r: seq<nat>)
    requires TwinReadable(red)
    ensures result <= r
    ensures forall x :: x in r ==> x in result || x in TwinOffer(red)
  {
    if red.adjacentNeighbors || red.neighborhood[0] !in result then result + [red.u, red.v]
    else result + red.neighborhood[1..]
  }

  /** `transfer_twin_reductions`: undoes the reductions last first. */
  function TransferTwin(reductions: seq<TwinReduction>, result: seq<nat>): (r: seq<nat>)
    requires AllTwinReadable(reductions)
    ensures result <= r
    ensures forall x :: x in r ==> x in result || x in TwinOffers(reductions)
    decreases |reductions|
  {
    if reductions == [] then result
    else
      var last := reductions[|reductions| - 1];
      TransferTwin(reductions[..|reductions| - 1], TwinStep(result, last))
  }

  /** Undoing a list of reductions is undoing its tail, then its head. */
  lemma {:induction false} TransferTwinSplit(a: seq<TwinReduction>, b: seq<TwinReduction>, result: seq<nat>)
    requires AllTwinReadable(a + b)
    ensures AllTwinReadable(a) && AllTwinReadable(b)
    ensures TransferTwin(a + b, result) == TransferTwin(a, TransferTwin(b, result))
    decreases |b|
  {
    var ab := a + b;
    ReadableParts(a, b);
    if b != [] {
      var last := b[|b| - 1];
      var init := b[..|b| - 1];
      assert ab[..|ab| - 1] == a + init;
      TwinPop(ab, result);
      TwinPop(b, result);
      TransferTwinSplit(a, init, TwinStep(result, last));
    } else {
      assert ab == a;
    }
  }

  lemma ReadableParts(a: seq<TwinReduction>, b: seq<TwinReduction>)
    requires AllTwinReadable(a + b)
    ensures AllTwinReadable(a) && AllTwinReadable(b)
    ensures b != [] ==> AllTwinReadable(a + b[..|b| - 1])
  {
    forall k | 0 <= k < |a|
      ensures TwinReadable(a[k])
    {
      assert (a + b)[k] == a[k];
    }
    forall k | 0 <= k < |b|
      ensures TwinReadable(b[k])
    {
      assert (a + b)[|a| + k] == b[k];
    }
    if b != [] {
      assert a + b[..|b| - 1] == (a + b)[..|a + b| - 1];
    }
  }

  /** One pop of the transfer loop. */
  lemma TwinPop(reductions: seq<TwinReduction>, result: seq<nat>)
    requires AllTwinReadable(reductions) && reductions != []
    ensures AllTwinReadable(reductions[..|reductions| - 1])
    ensures TransferTwin(reductions, result) ==
            TransferTwin(reductions[..|reductions| - 1], TwinStep(result, reductions[|reductions| - 1]))
  {
  }

  /** The loop of `transfer_twin_reductions`: pops reductions until none is
      left, pushing the chosen vertices one at a time. */
  method TransferTwinReductions(reductions: seq<TwinReduction>, independenceSet: seq<nat>)
    returns (remaining: seq<TwinReduction>, result: seq<nat>)
    requires AllTwinReadable(reductions)
    ensures remaining == []
    ensures result == TransferTwin(reductions, independenceSet)
  {
    remaining := reductions;
    result := independenceSet;
    while remaining != []
      invariant AllTwinReadable(remaining)
      invariant TransferTwin(remaining, result) == TransferTwin(reductions, independenceSet)
      decreases |remaining|
    {
      var red := remaining[|remaining| - 1];
      TwinPop(remaining, result);
      ghost var step := TwinStep(result, red);
      remaining := remaining[..|remaining| - 1];
      if red.adjacentNeighbors || red.neighborhood[0] !in result {
        result := result + [red.u];
        result := result + [red.v];
      } else {
        result := PushFrom(result, red.neighborhood, 1);
      }
      assert result == step;
    }
  }

  /** Pushes `xs[from..]` onto `result`, one element at a time. */
  method PushFrom(result: seq<nat>, xs: seq<nat>, from: nat) returns (r: seq<nat>)
    requires from <= |xs|
    ensures r == result + xs[from..]
  {
    r := result;
    for index := from to |xs|
      invariant r == result + xs[from..index]
    {
      r := r + [xs[index]];
    }
    assert xs[from..|xs|] == xs[from..];
  }

  // ---------------------------------------------------------------------
  // Nodal fold

  /** A degree-two vertex folded together with its two neighbours. */
  datatype NodalFold = NodalFold(innerVertex: nat, neighbors: seq<nat>)

  /** The vertices a nodal fold may apply to: present, with exactly two
      neighbours that are not adjacent. Adjacency in this graph is a query
      outside this model, passed in as `adjacent`. */
  predicate NodalCandidate(adj: OptAdjacency, adjacent: (nat, nat) -> bool, i: nat) {
    i < |adj| && adj[i].Some? && |adj[i].value| == 2 && !adjacent(adj[i].value[0], adj[i].value[1])
  }

  /** The selection in `do_nodal_fold_reductions`: the first candidate and
      the record made for it. */
  function SelectNodalFold(adj: OptAdjacency, adjacent: (nat, nat) -> bool): (r: Option<NodalFold>)
    ensures r.Some? ==> NodalCandidate(adj, adjacent, r.value.innerVertex) &&
                        adj[r.value.innerVertex] == Some(r.value.neighbors)
    ensures r.Some? ==> forall j :: 0 <= j < r.value.innerVertex ==> !NodalCandidate(adj, adjacent, j)
    ensures r.None? ==> forall j :: 0 <= j < |adj| ==> !NodalCandidate(adj, adjacent, j)
  {
    var p := (i: nat) => NodalCandidate(adj, adjacent, i);
    assert forall j: nat :: p(j) == NodalCandidate(adj, adjacent, j);
    match FirstWhere(|adj|, p)
    case None => None
    case Some(vertex) => Some(NodalFold(vertex, adj[vertex].value))
  }

  /** One fold undone: an inner vertex in the set is replaced by its
      neighbours, otherwise it joins the set. */
  function NodalStep(result: seq<nat>, red: NodalFold): (r: seq<nat>)
    ensures red.innerVertex in r <==> red.innerVertex !in result || red.innerVertex in red.neighbors
    ensures red.innerVertex in result ==> forall x :: x in red.neighbors ==> x in r
    ensures forall x :: x in r <==>
              (x in result && x != red.innerVertex) || (red.innerVertex in result && x in red.neighbors) ||
              (red.innerVertex !in result && x == red.innerVertex)
  {
    if red.innerVertex in result then Without(result, red.innerVertex) + red.neighbors
    else result + [red.innerVertex]
  }

  /** `transfer_nodal_fold_reduction`: undoes the folds last first. */
  function TransferNodal(reductions: seq<NodalFold>, result: seq<nat>): (r: seq<nat>)
    decreases |reductions|
  {
    if reductions == [] then result
    else TransferNodal(reductions[..|reductions| - 1], NodalStep(result, reductions[|reductions| - 1]))
  }

  /** The vertices some fold of the list mentions. */
  function Touched(reductions: seq<NodalFold>): (s: set<nat>)
    ensures forall k :: 0 <= k < |reductions| ==> reductions[k].innerVertex in s
    ensures forall k :: 0 <= k < |reductions| ==> Set(reductions[k].neighbors) <= s
    decreases |reductions|
  {
    if reductions == [] then {}
    else
      var last := reductions[|reductions| - 1];
      Touched(reductions[..|reductions| - 1]) + {last.innerVertex} + Set(last.neighbors)
  }

  /** The elements of `xs` outside `s`, in order. */
  function Keep(xs: seq<nat>, s: set<nat>): seq<nat>
  {
    if xs == [] then [] else (if xs[0] in s then [] else [xs[0]]) + Keep(xs[1..], s)
  }

  lemma {:induction false} KeepConcat(a: seq<nat>, b: seq<nat>, s: set<nat>)
    ensures Keep(a + b, s) == Keep(a, s) + Keep(b, s)
    decreases |a|
  {
    if a != [] {
      assert (a + b)[1..] == a[1..] + b;
      KeepConcat(a[1..], b, s);
    } else {
      assert a + b == b;
    }
  }

  lemma {:induction false} KeepWithout(xs: seq<nat>, v: nat, s: set<nat>)
    requires v in s
    ensures Keep(Without(xs, v), s) == Keep(xs, s)
    decreases |xs|
  {
    if xs != [] {
      var head: seq<nat> := if xs[0] == v then [] else [xs[0]];
      KeepConcat(head, Without(xs[1..], v), s);
      KeepWithout(xs[1..], v, s);
      if xs[0] != v {
        assert head[1..] == [];
      }
    }
  }

  lemma {:induction false} KeepNone(xs: seq<nat>, s: set<nat>)
    requires forall x :: x in xs ==> x in s
    ensures Keep(xs, s) == []
    decreases |xs|
  {
    if xs != [] {
      assert xs[0] in s;
      KeepNone(xs[1..], s);
    }
  }

  /** A fold whose vertices all lie in `s` leaves the elements outside `s`
      where they were. */
  lemma NodalStepKeeps(result: seq<nat>, red: NodalFold, s: set<nat>)
    requires red.innerVertex in s && forall x :: x in red.neighbors ==> x in s
    ensures Keep(NodalStep(result, red), s) == Keep(result, s)
  {
    if red.innerVertex in result {
      KeepConcat(Without(result, red.innerVertex), red.neighbors, s);
      KeepWithout(result, red.innerVertex, s);
      KeepNone(red.neighbors, s);
    } else {
      KeepConcat(result, [red.innerVertex], s);
      KeepNone([red.innerVertex], s);
    }
  }

  /** Apart from the vertices the folds mention, the transfer keeps the
      elements of the input set, in their order. */
  lemma {:induction false} TransferNodalKeeps(reductions: seq<NodalFold>, result: seq<nat>, s: set<nat>)
    requires Touched(reductions) <= s
    ensures Keep(TransferNodal(reductions, result), s) == Keep(result, s)
    decreases |reductions|
  {
    if reductions != [] {
      var init := reductions[..|reductions| - 1];
      var last := reductions[|reductions| - 1];
      NodalStepKeeps(result, last, s);
      TransferNodalKeeps(init, NodalStep(result, last), s);
    }
  }

  /** One pop of the transfer loop. */
  lemma NodalPop(reductions: seq<NodalFold>, result: seq<nat>)
    requires reductions != []
    ensures TransferNodal(reductions, result) ==
            TransferNodal(reductions[..|reductions| - 1], NodalStep(result, reductions[|reductions| - 1]))
  {
  }

  /** The loop of `transfer_nodal_fold_reduction`: pops folds until none is
      left, filtering the set and pushing neighbours one at a time. */
  method TransferNodalFoldReduction(independenceSet: seq<nat>, reductions: seq<NodalFold>)
    returns (remaining: seq<NodalFold>, result: seq<nat>)
    ensures remaining == []
    ensures result == TransferNodal(reductions, independenceSet)
  {
    remaining := reductions;
    result := independenceSet;
    while remaining != []
      invariant TransferNodal(remaining, result) == TransferNodal(reductions, independenceSet)
      decreases |remaining|
    {
      var red := remaining[|remaining| - 1];
      NodalPop(remaining, result);
      remaining := remaining[..|remaining| - 1];
      if red.innerVertex in result {
        result := Without(result, red.innerVertex);
        result := PushFrom(result, red.neighbors, 0);
        assert red.neighbors[0..] == red.neighbors;
      } else {
        result := result + [red.innerVertex];
      }
    }
  }

  // ---------------------------------------------------------------------
  // Isolated clique

  /** Outcome of one search round of `do_isolated_clique_reductions`. */
  datatype CliqueSelection =
    | NoClique
    | Selected(vertex: nat, members: seq<nat>)
    | Deleted(vertex: nat)  // the vertex found has no neighbour list: the unwrap panics

  /** The selection in `do_isolated_clique_reductions`: the first vertex
      the clique test accepts, and the members to remove, its neighbours
      followed by itself. The clique test on this graph is outside this
      model, passed in as `isClique`. */
  function SelectIsolatedClique(adj: OptAdjacency, isClique: nat -> bool): (r: CliqueSelection)
    ensures r.Selected? ==> r.vertex < |adj| && isClique(r.vertex) && |r.members| >= 1 &&
                            adj[r.vertex] == Some(r.members[..|r.members| - 1]) &&
                            r.members[|r.members| - 1] == r.vertex
    ensures r.Deleted? ==> r.vertex < |adj| && isClique(r.vertex) && adj[r.vertex].None?
    ensures !r.NoClique? ==> forall j :: 0 <= j < r.vertex ==> !isClique(j)
    ensures r.NoClique? <==> forall j :: 0 <= j < |adj| ==> !isClique(j)
  {
    match FirstWhere(|adj|, isClique)
    case None => NoClique
    case Some(vertex) =>
      match adj[vertex]
      case None => Deleted(vertex)
      case Some(nb) =>
        var members := nb + [vertex];
        assert members[..|members| - 1] == nb;
        Selected(vertex, members)
  }

  /** `transfer_isolated_clique`: the isolated vertices join the set after
      its own elements. */
  function TransferIsolatedClique(isolatedCliques: seq<nat>, independenceSet: seq<nat>): (r: seq<nat>)
    ensures |r| == |independenceSet| + |isolatedCliques|
    ensures r[..|independenceSet|] == independenceSet
    ensures r[|independenceSet|..] == isolatedCliques
  {
    independenceSet + isolatedCliques
  }

  /** The transferred set holds exactly the elements of both inputs, and is
      free of repetitions exactly when both inputs are and share nothing. */
  lemma TransferIsolatedCliqueSet(isolatedCliques: seq<nat>, independenceSet: seq<nat>)
    ensures Set(TransferIsolatedClique(isolatedCliques, independenceSet)) == Set(independenceSet) + Set(isolatedCliques)
    ensures Distinct(TransferIsolatedClique(isolatedCliques, independenceSet)) <==>
            Distinct(independenceSet) && Distinct(isolatedCliques) &&
            Set(independenceSet) * Set(isolatedCliques) == {}
  {
    var r := TransferIsolatedClique(isolatedCliques, independenceSet);
    var n := |independenceSet|;
    if Distinct(r) {
      forall i, j | 0 <= i < j < |isolatedCliques|
        ensures isolatedCliques[i] != isolatedCliques[j]
      {
        assert r[n + i] == isolatedCliques[i] && r[n + j] == isolatedCliques[j];
      }
      forall i, j | 0 <= i < n && 0 <= j < |isolatedCliques|
        ensures independenceSet[i] != isolatedCliques[j]
      {
        assert r[i] == independenceSet[i] && r[n + j] == isolatedCliques[j];
      }
    }
    if Distinct(independenceSet) && Distinct(isolatedCliques) && Set(independenceSet) * Set(isolatedCliques) == {} {
      forall i, j | 0 <= i < j < |r|
        ensures r[i] != r[j]
      {
        if j < n {
          assert r[i] == independenceSet[i] && r[j] == independenceSet[j];
        } else if i < n {
          assert r[i] in Set(independenceSet) && r[j] in Set(isolatedCliques);
          assert r[i] !in Set(independenceSet) * Set(isolatedCliques);
        } else {
          assert r[i] == isolatedCliques[i - n] && r[j] == isolatedCliques[j - n];
        }
      }
    }
  }
}
