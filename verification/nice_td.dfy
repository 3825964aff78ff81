/** The nice tree decomposition: every bag has at most two children, a join
    bag equals both children, and a bag with one child differs from it by
    one vertex. `insert_between_bags` builds the chain of bags that walks
    from a parent's vertex set to a child's, one vertex at a time. */
module NiceTds {
  import opened Wrappers
  import opened SetSeqs
  import opened TreeDecomps
  import NodeRelations
  import TdIters

  // ------------------------------------------------------ the chain of sets

  /** `get_bag_intersection`: the intersection and the two differences, as
      lists (ascending, standing in for the hash sets' order). */
  function BagIntersection(s1: set<nat>, s2: set<nat>): (r: (set<nat>, seq<nat>, seq<nat>))
    ensures r.0 == s1 * s2
    ensures Set(r.1) == s1 - r.0 && Distinct(r.1) && |r.1| == |s1 - r.0|
    ensures Set(r.2) == s2 - r.0 && Distinct(r.2) && |r.2| == |s2 - r.0|
  {
    var i := s1 * s2;
    (i, Elems(s1 - i), Elems(s2 - i))
  }

  /** The introduce sets: `i` plus the first `k` of `b1`, for `k` from
      `|b1| - 1` down to `0`. */
  function IntroduceSets(i: set<nat>, b1: seq<nat>): (r: seq<set<nat>>)
    ensures |r| == |b1|
    ensures forall k :: 0 <= k < |r| ==> r[k] == i + Set(b1[..|b1| - 1 - k])
  {
    seq(|b1|, k requires 0 <= k < |b1| => i + Set(b1[..|b1| - 1 - k]))
  }

  /** The forget sets: `i` plus the first `k` of `b2`, for `k` from `1` to
      `|b2| - 1`; the first, `i` itself, is skipped. */
  function ForgetSets(i: set<nat>, b2: seq<nat>): (r: seq<set<nat>>)
    ensures |r| == if |b2| == 0 then 0 else |b2| - 1
    ensures forall k :: 0 <= k < |r| ==> r[k] == i + Set(b2[..k + 1])
  {
    if |b2| <= 1 then []
    else seq(|b2| - 1, k requires 0 <= k < |b2| - 1 => i + Set(b2[..k + 1]))
  }

  /** The sets added below a bag with `i + Set(b1)`: the introduce sets,
      the forget sets, and `s2` itself when `last` holds. */
  function ChainOf(i: set<nat>, b1: seq<nat>, b2: seq<nat>, s2: set<nat>, last: bool): (r: seq<set<nat>>)
    ensures |r| == |IntroduceSets(i, b1)| + |ForgetSets(i, b2)| + (if last then 1 else 0)
  {
    IntroduceSets(i, b1) + ForgetSets(i, b2) + (if last then [s2] else [])
  }

  /** The vertex sets `insert_between_bags` adds, as the source writes it:
      the final bag with `s2` comes only when `b2` has two or more elements. */
  function ChainAsWritten(s1: set<nat>, s2: set<nat>): seq<set<nat>> {
    var bi := BagIntersection(s1, s2);
    var i, b1, b2 := bi.0, bi.1, bi.2;
    ChainOf(i, b1, b2, s2, |b2| >= 2)
  }

  /** The chain as intended: the final bag with `s2` comes whenever `b2` is
      non-empty, so the chain always ends in `s2`. */
  function Chain(s1: set<nat>, s2: set<nat>): seq<set<nat>> {
    var bi := BagIntersection(s1, s2);
    var i, b1, b2 := bi.0, bi.1, bi.2;
    ChainOf(i, b1, b2, s2, |b2| >= 1)
  }

  /** `a` and `b` differ by the one vertex `x`, in one direction or the other. */
  predicate OneStep(a: set<nat>, b: set<nat>, x: nat) {
    (b == a + {x} && x !in a) || (a == b + {x} && x !in b)
  }

  function Reverse(xs: seq<nat>): (r: seq<nat>)
    ensures |r| == |xs| && forall k :: 0 <= k < |xs| ==> r[k] == xs[|xs| - 1 - k]
  {
    seq(|xs|, k requires 0 <= k < |xs| => xs[|xs| - 1 - k])
  }

  /** The vertex each step of the path forgets or introduces: those of
      `s1 - s2`, last first, then those of `s2 - s1`. */
  function Moves(s1: set<nat>, s2: set<nat>): (m: seq<nat>)
    ensures |m| == |s1 - s2| + |s2 - s1|
  {
    var bi := BagIntersection(s1, s2);
    var i, b1, b2 := bi.0, bi.1, bi.2;
    assert s1 - i == s1 - s2 && s2 - i == s2 - s1;
    Reverse(b1) + b2
  }

  /** Closed form of the `k`-th set of the path below `i + Set(b1)`: the
      prefixes of `b1`, shrinking, then the prefixes of `b2`, growing. */
  function PathAt(i: set<nat>, b1: seq<nat>, b2: seq<nat>, k: nat): set<nat> {
    if k <= |b1| then i + Set(b1[..|b1| - k])
    else if k - |b1| <= |b2| then i + Set(b2[..k - |b1|])
    else i + Set(b2)
  }

  lemma PathAtIndex(i: set<nat>, b1: seq<nat>, b2: seq<nat>, s2: set<nat>, k: nat)
    requires s2 == i + Set(b2) && k < |b1| + |b2| + 1
    ensures |ChainOf(i, b1, b2, s2, |b2| >= 1)| == |b1| + |b2|
    ensures ([i + Set(b1)] + ChainOf(i, b1, b2, s2, |b2| >= 1))[k] == PathAt(i, b1, b2, k)
  {
    var c := ChainOf(i, b1, b2, s2, |b2| >= 1);
    var p := [i + Set(b1)] + c;
    if k == 0 {
      assert b1[..|b1|] == b1;
    } else if k <= |b1| {
      assert p[k] == IntroduceSets(i, b1)[k - 1];
    } else if k - |b1| < |b2| {
      assert p[k] == ForgetSets(i, b2)[k - |b1| - 1];
    } else {
      assert p[k] == s2;
      assert b2[..|b2|] == b2;
    }
  }

  lemma PrefixStep(xs: seq<nat>, k: nat)
    requires k < |xs| && Distinct(xs)
    ensures Set(xs[..k + 1]) == Set(xs[..k]) + {xs[k]} && xs[k] !in Set(xs[..k])
  {
    assert xs[..k + 1] == xs[..k] + [xs[k]];
  }

  lemma PathAtStep(i: set<nat>, b1: seq<nat>, b2: seq<nat>, k: nat)
    requires Distinct(b1) && Distinct(b2) && i !! Set(b1) && i !! Set(b2)
    requires k < |b1| + |b2|
    ensures OneStep(PathAt(i, b1, b2, k), PathAt(i, b1, b2, k + 1), (Reverse(b1) + b2)[k])
  {
    if k < |b1| {
      var j := |b1| - 1 - k;
      PrefixStep(b1, j);
      assert b1[j] in Set(b1);
    } else {
      var j := k - |b1|;
      PrefixStep(b2, j);
      assert b2[j] in Set(b2);
    }
  }

  lemma PathSteps(i: set<nat>, b1: seq<nat>, b2: seq<nat>, s2: set<nat>, p: seq<set<nat>>)
    requires Distinct(b1) && Distinct(b2) && i !! Set(b1) && i !! Set(b2) && s2 == i + Set(b2)
    requires p == [i + Set(b1)] + ChainOf(i, b1, b2, s2, |b2| >= 1)
    ensures |p| == |b1| + |b2| + 1
    ensures p[|p| - 1] == s2
    ensures forall k :: 0 <= k < |p| - 1 ==> OneStep(p[k], p[k + 1], (Reverse(b1) + b2)[k])
  {
    PathAtIndex(i, b1, b2, s2, 0);
    forall k | 0 <= k < |p| - 1
      ensures OneStep(p[k], p[k + 1], (Reverse(b1) + b2)[k])
    {
      PathAtIndex(i, b1, b2, s2, k);
      PathAtIndex(i, b1, b2, s2, k + 1);
      PathAtStep(i, b1, b2, k);
    }
    PathAtIndex(i, b1, b2, s2, |p| - 1);
    assert b2[..|b2|] == b2;
  }

  /** Along the path from `s1` through the chain, consecutive sets differ by
      exactly one vertex, and the path ends in `s2`: first the vertices of
      `s1 - s2` are forgotten one by one, then those of `s2 - s1` introduced. */
  lemma ChainSteps(s1: set<nat>, s2: set<nat>)
    ensures |Chain(s1, s2)| == |Moves(s1, s2)|
    ensures Chain(s1, s2) == [] ==> s1 == s2
    ensures Chain(s1, s2) != [] ==> Chain(s1, s2)[|Chain(s1, s2)| - 1] == s2
    ensures forall k :: 0 <= k < |Chain(s1, s2)| ==>
      OneStep(([s1] + Chain(s1, s2))[k], ([s1] + Chain(s1, s2))[k + 1], Moves(s1, s2)[k])
  {
    var bi := BagIntersection(s1, s2);
    var c := Chain(s1, s2);
    ChainParts(s1, s2, bi);
    var p := [s1] + c;
    PathSteps(bi.0, bi.1, bi.2, s2, p);
    ChainEnds(s1, s2, c, p);
  }

  /** `Chain` and `Moves` in terms of the bag intersection `bi`. */
  lemma ChainParts(s1: set<nat>, s2: set<nat>, bi: (set<nat>, seq<nat>, seq<nat>))
    requires bi == BagIntersection(s1, s2)
    ensures s1 == bi.0 + Set(bi.1)
    ensures s2 == bi.0 + Set(bi.2)
    ensures Chain(s1, s2) == ChainOf(bi.0, bi.1, bi.2, s2, |bi.2| >= 1)
    ensures Moves(s1, s2) == Reverse(bi.1) + bi.2
  {
    SplitByIntersection(s1, s2, bi.0, Set(bi.1));
    SplitByIntersection(s2, s1, bi.0, Set(bi.2));
  }

  /** The chain has one set per move and ends in `s2`. */
  lemma ChainShape(s1: set<nat>, s2: set<nat>)
    ensures |Chain(s1, s2)| == |s1 - s2| + |s2 - s1|
    ensures Chain(s1, s2) == [] ==> s1 == s2
    ensures Chain(s1, s2) != [] ==> Chain(s1, s2)[|Chain(s1, s2)| - 1] == s2
  {
    ChainSteps(s1, s2);
  }

  /** A set is its intersection with another plus the rest. */
  lemma SplitByIntersection(a: set<nat>, b: set<nat>, i: set<nat>, rest: set<nat>)
    requires i == a * b && rest == a - i
    ensures a == i + rest
  {
  }

  lemma ChainEnds(s1: set<nat>, s2: set<nat>, c: seq<set<nat>>, p: seq<set<nat>>)
    requires p == [s1] + c && p[|p| - 1] == s2
    ensures c == [] ==> s1 == s2
    ensures c != [] ==> c[|c| - 1] == s2
  {
    assert c == [] ==> p[0] == s1;
    assert c != [] ==> c[|c| - 1] == p[|p| - 1];
  }

  /** With one vertex to introduce, the chain as written stops short of `s2`:
      from `{0}` to `{0, 1}` it adds no bag, and the path ends in `{0}`. */
  lemma ChainAsWrittenStopsShort()
    ensures var p := [{0}] + ChainAsWritten({0}, {0, 1});
      p[|p| - 1] == {0} && p[|p| - 1] != {0, 1}
  {
    var bi := BagIntersection({0}, {0, 1});
    var i, b1, b2 := bi.0, bi.1, bi.2;
    assert i == {0};
    assert |b1| == 0 by { assert {0} - i == {}; }
    assert |b2| == 1 by { assert {0, 1} - i == {1}; }
    assert ChainAsWritten({0}, {0, 1}) == [];
  }

  /** Whenever `s2 - s1` does not have exactly one vertex the two chains agree. */
  lemma ChainAgrees(s1: set<nat>, s2: set<nat>)
    requires |s2 - s1| != 1
    ensures ChainAsWritten(s1, s2) == Chain(s1, s2)
  {
    assert s2 - s1 * s2 == s2 - s1;
  }

  // ----------------------------------------------------- bags on the chain

  /** `BagRelations`: old bag id to new bag id and back. */
  datatype BagRelations = BagRelations(toNew: map<nat, nat>, toOld: map<nat, nat>)

  /** `BagRelations::new`: the identity on the ids of `bags`, both ways. */
  function BagRelationsNew(bags: seq<Bag>): (r: BagRelations)
    ensures forall i :: 0 <= i < |bags| ==> bags[i].id in r.toNew && r.toNew[bags[i].id] == bags[i].id
    ensures forall i :: 0 <= i < |bags| ==> bags[i].id in r.toOld && r.toOld[bags[i].id] == bags[i].id
    ensures forall x :: x in r.toNew ==> r.toNew[x] == x && x in r.toOld
    ensures forall x :: x in r.toOld ==> r.toOld[x] == x && x in r.toNew
  {
    if bags == [] then BagRelations(map[], map[])
    else
      var r := BagRelationsNew(bags[..|bags| - 1]);
      var id := bags[|bags| - 1].id;
      assert forall i :: 0 <= i < |bags| - 1 ==> bags[..|bags| - 1][i] == bags[i];
      BagRelations(r.toNew[id := id], r.toOld[id := id])
  }

  /** Add one bag per set, each a child of the one before, starting below
      `parent`; returns the last bag (or `parent` when there are no sets). */
  function AddChain(td: Td, parent: nat, sets: seq<set<nat>>): (r: (Td, nat))
    requires parent < |td.bags|
    ensures |r.0.bags| == |td.bags| + |sets| && r.1 < |r.0.bags|
    ensures r.1 == if sets == [] then parent else |td.bags| + |sets| - 1
    ensures r.0.root == (if td.root.None? && |sets| > 0 then Some(|td.bags|) else td.root)
    ensures r.0.maxBagSize == td.maxBagSize
    ensures Indexed(td) ==> Indexed(r.0)
    decreases |sets|
  {
    if sets == [] then (td, parent)
    else
      var ab := AddBag(td, sets[0]);
      var id, t1 := ab.0, ab.1;
      AddChain(AddEdge(t1, parent, id), id, sets[1..])
  }

  /** The chain keeps the old bags' vertex sets and neighbours. */
  lemma {:induction false} AddChainKeeps(td: Td, parent: nat, sets: seq<set<nat>>, t: Td)
    requires parent < |td.bags| && t == AddChain(td, parent, sets).0
    ensures forall j :: 0 <= j < |td.bags| ==>
      t.bags[j].vertexSet == td.bags[j].vertexSet && td.bags[j].neighbors <= t.bags[j].neighbors
    decreases |sets|
  {
    if sets != [] {
      var ab := AddBag(td, sets[0]);
      var id, t1 := ab.0, ab.1;
      var t2 := AddEdge(t1, parent, id);
      assert t == AddChain(t2, id, sets[1..]).0;
      AddChainKeeps(t2, id, sets[1..], t);
      forall j | 0 <= j < |td.bags|
        ensures t.bags[j].vertexSet == td.bags[j].vertexSet && td.bags[j].neighbors <= t.bags[j].neighbors
      {
        assert t1.bags[j] == td.bags[j];
        PrefixTrans(td.bags[j].neighbors, t2.bags[j].neighbors, t.bags[j].neighbors);
      }
    }
  }

  lemma PrefixTrans(a: seq<nat>, b: seq<nat>, c: seq<nat>)
    requires a <= b && b <= c
    ensures a <= c
  {
    assert forall k :: 0 <= k < |a| ==> a[k] == b[k] == c[k];
  }

  /** The new bags carry the sets in order. */
  lemma {:induction false} AddChainSets(td: Td, parent: nat, sets: seq<set<nat>>, t: Td)
    requires parent < |td.bags| && t == AddChain(td, parent, sets).0
    ensures forall j :: |td.bags| <= j < |t.bags| ==> t.bags[j].vertexSet == sets[j - |td.bags|]
    decreases |sets|
  {
    if sets != [] {
      var ab := AddBag(td, sets[0]);
      var id, t1 := ab.0, ab.1;
      var t2 := AddEdge(t1, parent, id);
      var rest := sets[1..];
      assert t == AddChain(t2, id, rest).0;
      AddChainSets(t2, id, rest, t);
      AddChainKeeps(t2, id, rest, t);
      forall j | |td.bags| <= j < |t.bags|
        ensures t.bags[j].vertexSet == sets[j - |td.bags|]
      {
        if j == id {
          assert t.bags[id].vertexSet == t2.bags[id].vertexSet == sets[0];
        } else {
          assert |t2.bags| == |td.bags| + 1;
          assert t.bags[j].vertexSet == rest[j - |t2.bags|] == sets[j - |td.bags|];
        }
      }
    }
  }

  /** The first new bag hangs below `parent`, each later one below the one
      added before it. */
  lemma {:induction false} AddChainEdges(td: Td, parent: nat, sets: seq<set<nat>>, t: Td)
    requires parent < |td.bags| && t == AddChain(td, parent, sets).0
    ensures sets != [] ==> |td.bags| in t.bags[parent].neighbors
    ensures forall j :: |td.bags| <= j < |t.bags| - 1 ==> j + 1 in t.bags[j].neighbors
    decreases |sets|
  {
    if sets != [] {
      var ab := AddBag(td, sets[0]);
      var id, t1 := ab.0, ab.1;
      var t2 := AddEdge(t1, parent, id);
      assert t == AddChain(t2, id, sets[1..]).0;
      AddChainKeeps(t2, id, sets[1..], t);
      AddChainEdges(t2, id, sets[1..], t);
      assert id in t2.bags[parent].neighbors;
      assert t2.bags[parent].neighbors <= t.bags[parent].neighbors;
      assert |t.bags| == |t2.bags| + |sets[1..]| && |t2.bags| == id + 1;
      ChainLinksGlue(id, t, |sets[1..]|);
    }
  }


  /** Links from bag `n` on follow from the link out of `n` and those
      from `n + 1` on. */
  lemma ChainLinksGlue(n: nat, t: Td, rest: nat)
    requires |t.bags| == n + 1 + rest
    requires rest > 0 ==> n + 1 in t.bags[n].neighbors
    requires forall j :: n + 1 <= j < |t.bags| - 1 ==> j + 1 in t.bags[j].neighbors
    ensures forall j :: n <= j < |t.bags| - 1 ==> j + 1 in t.bags[j].neighbors
  {
  }

  function InsertChain(td: Td, rel: BagRelations, chain: seq<set<nat>>, parent: nat,
                       oldChild: Option<nat>): (r: (Td, BagRelations))
    requires parent < |td.bags|
    ensures |r.0.bags| == |td.bags| + |chain|
    ensures r.0.root == (if td.root.None? && |chain| > 0 then Some(|td.bags|) else td.root)
    ensures r.0.maxBagSize == td.maxBagSize
    ensures oldChild.Some? ==> (oldChild.value in r.1.toNew &&
      var c := r.1.toNew[oldChild.value];
      c == (if chain == [] then parent else |td.bags| + |chain| - 1) && c in r.1.toOld && r.1.toOld[c] == oldChild.value)
    ensures oldChild.None? ==> r.1 == rel
    ensures Indexed(td) ==> Indexed(r.0)
    ensures r.0 == AddChain(td, parent, chain).0
  {
    var ac := AddChain(td, parent, chain);
    var t, last := ac.0, ac.1;
    match oldChild
    case None => (t, rel)
    case Some(id) => (t, BagRelations(rel.toNew[id := last], rel.toOld[last := id]))
  }

  /** `insert_between_bags` as written: the chain below `parent`, and the old
      child, if any, mapped to the chain's last bag both ways. */
  function InsertBetweenBagsAsWritten(td: Td, rel: BagRelations, s1: set<nat>, s2: set<nat>,
                                      parent: nat, oldChild: Option<nat>): (r: (Td, BagRelations))
    requires parent < |td.bags|
    ensures |r.0.bags| == |td.bags| + |ChainAsWritten(s1, s2)|
    ensures oldChild.Some? ==> (oldChild.value in r.1.toNew &&
      r.1.toNew[oldChild.value] == (if ChainAsWritten(s1, s2) == [] then parent else |r.0.bags| - 1))
    ensures r.0.root == (if td.root.None? && |r.0.bags| > |td.bags| then Some(|td.bags|) else td.root)
    ensures r.0.maxBagSize == td.maxBagSize
    ensures forall j :: 0 <= j < |td.bags| ==> r.0.bags[j].vertexSet == td.bags[j].vertexSet
    ensures Indexed(td) ==> Indexed(r.0)
  {
    var chain := ChainAsWritten(s1, s2);
    InsertChainKeeps(td, rel, chain, parent, oldChild);
    InsertChain(td, rel, chain, parent, oldChild)
  }

  /** Inserting a chain keeps the older bags' vertex sets. */
  lemma InsertChainKeeps(td: Td, rel: BagRelations, chain: seq<set<nat>>, parent: nat, oldChild: Option<nat>)
    requires parent < |td.bags|
    ensures var t := InsertChain(td, rel, chain, parent, oldChild).0;
      forall j :: 0 <= j < |td.bags| ==> t.bags[j].vertexSet == td.bags[j].vertexSet
  {
    AddChainKeeps(td, parent, chain, AddChain(td, parent, chain).0);
  }

  /** Below a lone bag `{0}`, inserting towards `{0, 1}` as written adds no
      bag and maps the old child to the bag `{0}`. */
  lemma InsertAsWrittenMapsToParent()
    ensures var td := Td([Bag(0, {0}, [])], Some(0), 2);
      var r := InsertBetweenBagsAsWritten(td, BagRelations(map[], map[]), {0}, {0, 1}, 0, Some(7));
      7 in r.1.toNew && r.1.toNew[7] == 0 && r.0.bags[0].vertexSet == {0} != {0, 1}
  {
    ChainAsWrittenStopsShort();
  }

  /** `insert_between_bags` with the final `s2` bag whenever `s2` has a vertex
      outside `s1`: one new bag per vertex in which the sets differ, and the
      old child maps to the last one, whose vertex set is `s2`. */
  function InsertBetweenBags(td: Td, rel: BagRelations, s1: set<nat>, s2: set<nat>,
                             parent: nat, oldChild: Option<nat>): (r: (Td, BagRelations))
    requires parent < |td.bags|
    ensures |r.0.bags| == |td.bags| + |s1 - s2| + |s2 - s1|
    ensures r.0.root == (if td.root.None? && |r.0.bags| > |td.bags| then Some(|td.bags|) else td.root)
    ensures r.0.maxBagSize == td.maxBagSize
    ensures forall j :: 0 <= j < |td.bags| ==> r.0.bags[j].vertexSet == td.bags[j].vertexSet
    ensures Indexed(td) ==> Indexed(r.0)
  {
    var chain := Chain(s1, s2);
    ChainShape(s1, s2);
    AddChainKeeps(td, parent, chain, AddChain(td, parent, chain).0);
    InsertChain(td, rel, chain, parent, oldChild)
  }

  /** After `insert_between_bags` the old child maps both ways to a new bag,
      which carries `s2` when the parent carries `s1`. */
  lemma InsertBetweenBagsChild(td: Td, rel: BagRelations, s1: set<nat>, s2: set<nat>,
                               parent: nat, oldChild: Option<nat>, r: (Td, BagRelations))
    requires parent < |td.bags| && oldChild.Some?
    requires r == InsertBetweenBags(td, rel, s1, s2, parent, oldChild)
    ensures oldChild.value in r.1.toNew
    ensures r.1.toNew[oldChild.value] < |r.0.bags|
    ensures r.1.toNew[oldChild.value] in r.1.toOld && r.1.toOld[r.1.toNew[oldChild.value]] == oldChild.value
    ensures td.bags[parent].vertexSet == s1 ==> r.0.bags[r.1.toNew[oldChild.value]].vertexSet == s2
  {
    var chain := Chain(s1, s2);
    ChainShape(s1, s2);
    InsertChainLast(td, rel, chain, parent, oldChild, s1, s2);
  }

  /** The old child's new bag carries the chain's last set, or the parent's
      set when the chain is empty. */
  lemma InsertChainLast(td: Td, rel: BagRelations, chain: seq<set<nat>>, parent: nat, oldChild: Option<nat>,
                        s1: set<nat>, s2: set<nat>)
    requires parent < |td.bags|
    requires chain == [] ==> s1 == s2
    requires chain != [] ==> chain[|chain| - 1] == s2
    ensures var r := InsertChain(td, rel, chain, parent, oldChild);
      oldChild.Some? && td.bags[parent].vertexSet == s1 ==> r.0.bags[r.1.toNew[oldChild.value]].vertexSet == s2
  {
    var r := InsertChain(td, rel, chain, parent, oldChild);
    if oldChild.Some? && td.bags[parent].vertexSet == s1 {
      var c := r.1.toNew[oldChild.value];
      if chain == [] {
        assert c == parent;
        AddChainKeeps(td, parent, chain, r.0);
      } else {
        assert c == |td.bags| + |chain| - 1;
        AddChainSets(td, parent, chain, r.0);
      }
    }
  }

  /** Below a bag with `s1`, the chain of `sets` is a path whose vertex set
      moves by `m[k]` on its `k`-th edge when the sets do, ending in `s2`. */
  lemma AddChainPath(td: Td, parent: nat, sets: seq<set<nat>>, s1: set<nat>, s2: set<nat>, m: seq<nat>, t: Td)
    requires parent < |td.bags| && td.bags[parent].vertexSet == s1 && |m| == |sets|
    requires forall k :: 0 <= k < |sets| ==> OneStep(([s1] + sets)[k], ([s1] + sets)[k + 1], m[k])
    requires sets != [] ==> sets[|sets| - 1] == s2
    requires t == AddChain(td, parent, sets).0
    ensures |t.bags| > |td.bags| ==>
      |td.bags| in t.bags[parent].neighbors && OneStep(s1, t.bags[|td.bags|].vertexSet, m[0]) &&
      t.bags[|t.bags| - 1].vertexSet == s2
    ensures forall j :: |td.bags| <= j < |t.bags| - 1 ==>
      j + 1 in t.bags[j].neighbors &&
      OneStep(t.bags[j].vertexSet, t.bags[j + 1].vertexSet, m[j + 1 - |td.bags|])
  {
    var p := [s1] + sets;
    var n := |td.bags|;
    AddChainSets(td, parent, sets, t);
    AddChainEdges(td, parent, sets, t);
    forall j | n <= j < |t.bags| - 1
      ensures j + 1 in t.bags[j].neighbors && OneStep(t.bags[j].vertexSet, t.bags[j + 1].vertexSet, m[j + 1 - n])
    {
      var k := j - n + 1;
      assert OneStep(p[k], p[k + 1], m[k]);
      assert t.bags[j].vertexSet == sets[j - n] == p[k];
      assert t.bags[j + 1].vertexSet == sets[j + 1 - n] == p[k + 1];
    }
    if |t.bags| > n {
      assert OneStep(p[0], p[1], m[0]);
      assert t.bags[n].vertexSet == sets[0] == p[1];
      assert t.bags[|t.bags| - 1].vertexSet == sets[|sets| - 1];
    }
  }

  /** The bags `InsertBetweenBags` adds form a path below `parent` along
      which the vertex set changes by one vertex per edge, from `s1` to `s2`. */
  lemma InsertBetweenBagsPath(td: Td, rel: BagRelations, s1: set<nat>, s2: set<nat>,
                              parent: nat, oldChild: Option<nat>, t: Td)
    requires parent < |td.bags| && td.bags[parent].vertexSet == s1
    requires t == InsertBetweenBags(td, rel, s1, s2, parent, oldChild).0
    ensures |t.bags| > |td.bags| ==>
      |td.bags| in t.bags[parent].neighbors && OneStep(s1, t.bags[|td.bags|].vertexSet, Moves(s1, s2)[0]) &&
      t.bags[|t.bags| - 1].vertexSet == s2
    ensures forall j :: |td.bags| <= j < |t.bags| - 1 ==>
      j + 1 in t.bags[j].neighbors &&
      OneStep(t.bags[j].vertexSet, t.bags[j + 1].vertexSet, Moves(s1, s2)[j + 1 - |td.bags|])
  {
    var chain := Chain(s1, s2);
    var m := Moves(s1, s2);
    ChainSteps(s1, s2);
    AddChainPath(td, parent, chain, s1, s2, m, t);
  }

  // -------------------------------------------------------------- validate

  /** The index of the first bag of `bags` with vertex set `vs`. */
  function FirstMatch(bags: seq<Bag>, vs: set<nat>): (r: Option<nat>)
    ensures r.None? <==> forall i :: 0 <= i < |bags| ==> bags[i].vertexSet != vs
    ensures r.Some? ==> r.value < |bags| && bags[r.value].vertexSet == vs
    ensures r.Some? ==> forall j :: 0 <= j < r.value ==> bags[j].vertexSet != vs
  {
    if bags == [] then None
    else if bags[0].vertexSet == vs then Some(0)
    else
      match FirstMatch(bags[1..], vs)
      case None => None
      case Some(i) => Some(i + 1)
  }

  /** The per-bag test of `validate`; `None` where the source panics (no
      children entry, a child index past the bags). */
  function LocalRule(ntd: Td, b: Bag, children: map<nat, seq<nat>>): (r: Option<bool>)
    ensures r.None? <==> (b.id !in children ||
      (1 <= |children[b.id]| <= 2 && exists j :: 0 <= j < |children[b.id]| && children[b.id][j] >= |ntd.bags|))
    ensures r == Some(true) ==> b.id in children && |children[b.id]| <= 2
    ensures r == Some(true) && |children[b.id]| == 0 ==> |b.vertexSet| == 1
    ensures r == Some(true) && |children[b.id]| == 1 ==>
      var c := ntd.bags[children[b.id][0]].vertexSet;
      |b.vertexSet - c| == 1 || |c - b.vertexSet| == 1
    ensures r == Some(true) && |children[b.id]| == 2 ==>
      b.vertexSet <= ntd.bags[children[b.id][0]].vertexSet && b.vertexSet <= ntd.bags[children[b.id][1]].vertexSet
  {
    if b.id !in children then None
    else
      var kids := children[b.id];
      if |kids| == 0 then Some(|b.vertexSet| == 1)
      else if |kids| == 1 then
        if kids[0] >= |ntd.bags| then None
        else
          var c := ntd.bags[kids[0]].vertexSet;
          Some(|b.vertexSet - c| == 1 || |c - b.vertexSet| == 1)
      else if |kids| == 2 then
        if kids[0] >= |ntd.bags| || kids[1] >= |ntd.bags| then None
        else
          var d0 := b.vertexSet - ntd.bags[kids[0]].vertexSet;
          var d1 := b.vertexSet - ntd.bags[kids[1]].vertexSet;
          EmptyDiff(b.vertexSet, ntd.bags[kids[0]].vertexSet);
          EmptyDiff(b.vertexSet, ntd.bags[kids[1]].vertexSet);
          Some(|d0| == 0 && |d1| == 0)
      else Some(false)
  }

  lemma EmptyDiff(a: set<nat>, b: set<nat>)
    ensures |a - b| == 0 <==> a <= b
  {
    if a <= b {
      assert a - b == {};
    } else {
      var x :| x in a && x !in b;
      assert x in a - b;
    }
  }

  predicate AllLocal(ntd: Td, children: map<nat, seq<nat>>, k: nat) {
    forall j :: k <= j < |ntd.bags| ==> LocalRule(ntd, ntd.bags[j], children) == Some(true)
  }

  /** Original bag `i` is the first match of some bag of `ntd` from `k` on. */
  predicate MarkedFrom(ntd: Td, otd: Td, k: nat, i: nat) {
    exists j :: k <= j < |ntd.bags| && FirstMatch(otd.bags, ntd.bags[j].vertexSet) == Some(i)
  }

  predicate Covered(ntd: Td, otd: Td, k: nat, present: set<nat>) {
    forall i :: 0 <= i < |otd.bags| ==> i in present || MarkedFrom(ntd, otd, k, i)
  }

  /** `present` after bag `b`: its first match among the original bags. */
  function Mark(otd: Td, b: Bag, present: set<nat>): set<nat>
    requires Indexed(otd)
  {
    match FirstMatch(otd.bags, b.vertexSet)
    case Some(i) => present + {otd.bags[i].id}
    case None => present
  }

  lemma CoveredStep(ntd: Td, otd: Td, k: nat, present: set<nat>)
    requires Indexed(otd) && k < |ntd.bags|
    ensures Covered(ntd, otd, k, present) <==> Covered(ntd, otd, k + 1, Mark(otd, ntd.bags[k], present))
  {
    var present' := Mark(otd, ntd.bags[k], present);
    forall i | 0 <= i < |otd.bags|
      ensures (i in present || MarkedFrom(ntd, otd, k, i)) <==> (i in present' || MarkedFrom(ntd, otd, k + 1, i))
    {
      if MarkedFrom(ntd, otd, k, i) && !MarkedFrom(ntd, otd, k + 1, i) {
        var j :| k <= j < |ntd.bags| && FirstMatch(otd.bags, ntd.bags[j].vertexSet) == Some(i);
        assert j == k;
      }
      if i in present' && i !in present {
        assert FirstMatch(otd.bags, ntd.bags[k].vertexSet) == Some(i);
      }
    }
  }

  /** The bags of `ntd` from index `k` on: mark in `present` the first
      original bag with the same vertex set, then test the bag; stop at the
      first failing bag. */
  function ValidateFrom(ntd: Td, otd: Td, children: map<nat, seq<nat>>, k: nat, present: set<nat>)
    : (r: Option<bool>)
    requires k <= |ntd.bags| && Indexed(otd)
    ensures r == Some(true) <==> AllLocal(ntd, children, k) && Covered(ntd, otd, k, present)
    decreases |ntd.bags| - k
  {
    if k == |ntd.bags| then Some(forall i :: 0 <= i < |otd.bags| ==> i in present)
    else
      var b := ntd.bags[k];
      var present' := Mark(otd, b, present);
      CoveredStep(ntd, otd, k, present);
      match LocalRule(ntd, b, children)
      case None => None
      case Some(false) => Some(false)
      case Some(true) => ValidateFrom(ntd, otd, children, k + 1, present')
  }

  /** `validate`: every bag passes the local test, and every original bag is
      the first original bag with its vertex set and reappears in `ntd`. */
  function Validate(ntd: Td, otd: Td, children: map<nat, seq<nat>>): (r: Option<bool>)
    requires Indexed(otd)
    ensures r == Some(true) <==>
      (forall j :: 0 <= j < |ntd.bags| ==> LocalRule(ntd, ntd.bags[j], children) == Some(true)) &&
      (forall i :: 0 <= i < |otd.bags| ==>
        FirstMatch(otd.bags, otd.bags[i].vertexSet) == Some(i) &&
        exists j :: 0 <= j < |ntd.bags| && ntd.bags[j].vertexSet == otd.bags[i].vertexSet)
  {
    var r := ValidateFrom(ntd, otd, children, 0, {});
    PresentMeans(ntd, otd);
    r
  }

  lemma PresentMeans(ntd: Td, otd: Td)
    ensures forall i :: 0 <= i < |otd.bags| ==>
      (MarkedFrom(ntd, otd, 0, i) <==>
       (FirstMatch(otd.bags, otd.bags[i].vertexSet) == Some(i) &&
        exists j :: 0 <= j < |ntd.bags| && ntd.bags[j].vertexSet == otd.bags[i].vertexSet))
  {
    forall i | 0 <= i < |otd.bags|
      ensures MarkedFrom(ntd, otd, 0, i) ==>
        (FirstMatch(otd.bags, otd.bags[i].vertexSet) == Some(i) &&
         exists j :: 0 <= j < |ntd.bags| && ntd.bags[j].vertexSet == otd.bags[i].vertexSet)
    {
      if MarkedFrom(ntd, otd, 0, i) {
        var j :| 0 <= j < |ntd.bags| && FirstMatch(otd.bags, ntd.bags[j].vertexSet) == Some(i);
        assert ntd.bags[j].vertexSet == otd.bags[i].vertexSet;
      }
    }
  }

  // ------------------------------------------------------------ conversion

  /** The nice decomposition being built and the old-to-new bag relations. */
  datatype Build = Build(ntd: Td, rel: BagRelations)

  /** The leaf's end set: its first vertex (the least, in the model's order). */
  function EndSet(vs: set<nat>): (r: set<nat>)
    ensures r <= vs && |r| == (if vs == {} then 0 else 1)
  {
    if vs == {} then {} else {MinOf(vs)}
  }

  /** `b` grows into `c`: bags are only appended, the old bags keep their
      vertex sets, a set root and the maximal bag size stay. */
  predicate Keeps(b: Td, c: Td) {
    |b.bags| <= |c.bags| && (b.root.Some? ==> c.root == b.root) && c.maxBagSize == b.maxBagSize &&
    (forall j :: 0 <= j < |b.bags| ==> c.bags[j].vertexSet == b.bags[j].vertexSet) &&
    (Indexed(b) ==> Indexed(c))
  }

  lemma KeepsTrans(a: Td, b: Td, c: Td)
    requires Keeps(a, b) && Keeps(b, c)
    ensures Keeps(a, c)
  {
  }

  /** One `insert_between_bags` call on the build, as the source writes it:
      the old child, if any, is mapped to a bag of the new decomposition. */
  function Insert(b: Build, s1: set<nat>, s2: set<nat>, parent: nat, oldChild: Option<nat>): (r: Build)
    requires parent < |b.ntd.bags|
    ensures Keeps(b.ntd, r.ntd)
    ensures oldChild.Some? ==> oldChild.value in r.rel.toNew && r.rel.toNew[oldChild.value] < |r.ntd.bags|
  {
    var ib := InsertBetweenBagsAsWritten(b.ntd, b.rel, s1, s2, parent, oldChild);
    var t, rel := ib.0, ib.1;
    Build(t, rel)
  }

  /** The join fold: for each child but the last, two clones of the bag
      below `parent` and the child's chain below the left clone; the right
      clone is the next parent. `None` where the source indexes past a vector. */
  function Joins(b: Build, td: Td, vs: set<nat>, kids: seq<nat>, parent: nat): (r: Option<(Build, nat)>)
    requires Indexed(td)
    ensures r.Some? ==> Keeps(b.ntd, r.value.0.ntd)
    ensures r.Some? && kids != [] ==> r.value.1 < |r.value.0.ntd.bags| && r.value.0.ntd.bags[r.value.1].vertexSet == vs
    decreases |kids|
  {
    if kids == [] then Some((b, parent))
    else
      var c := kids[0];
      if c >= |td.bags| || parent >= |b.ntd.bags| then None
      else
        var ab := AddBag(b.ntd, vs);
        var left, t1 := ab.0, ab.1;
        var ab := AddBag(t1, vs);
        var right, t2 := ab.0, ab.1;
        var t3 := AddEdge(AddEdge(t2, parent, left), parent, right);
        assert Keeps(b.ntd, t3);
        var b' := Insert(Build(t3, b.rel), vs, td.bags[c].vertexSet, left, Some(td.bags[c].id));
        KeepsTrans(b.ntd, t3, b'.ntd);
        match Joins(b', td, vs, kids[1..], right)
        case None => None
        case Some(res) =>
          KeepsTrans(b.ntd, b'.ntd, res.0.ntd);
          Some(res)
  }

  /** One step of the breadth-first loop, for the original bag `o`. */
  function ConvertBag(b: Build, td: Td, children: map<nat, seq<nat>>, o: nat): (r: Option<Build>)
    requires Indexed(td) && o < |td.bags|
    ensures r.Some? ==> Keeps(b.ntd, r.value.ntd)
  {
    if o !in b.rel.toNew || o !in children then None
    else
      var bagId := b.rel.toNew[o];
      var kids := children[o];
      var vs := td.bags[o].vertexSet;
      if |kids| >= 2 then
        match Joins(b, td, vs, kids[..|kids| - 1], bagId)
        case None => None
        case Some((b', last)) =>
          var c := kids[|kids| - 1];
          if c >= |td.bags| || last >= |b'.ntd.bags| then None
          else
            var r := Insert(b', vs, td.bags[c].vertexSet, last, Some(td.bags[c].id));
            KeepsTrans(b.ntd, b'.ntd, r.ntd);
            Some(r)
      else if |kids| == 1 && kids[0] >= |td.bags| then None
      else if bagId !in b.rel.toOld || b.rel.toOld[bagId] !in b.rel.toNew then None
      else
        var inserted := b.rel.toNew[b.rel.toOld[bagId]];
        if inserted >= |b.ntd.bags| then None
        else if |kids| == 1 then Some(Insert(b, vs, td.bags[kids[0]].vertexSet, inserted, Some(td.bags[kids[0]].id)))
        else Some(Insert(b, vs, EndSet(vs), inserted, None))
  }

  /** The breadth-first loop over the original bags in `order`. */
  function ConvertAll(b: Build, td: Td, children: map<nat, seq<nat>>, order: seq<nat>): (r: Option<Build>)
    requires Indexed(td) && forall k :: 0 <= k < |order| ==> order[k] < |td.bags|
    ensures r.Some? ==> Keeps(b.ntd, r.value.ntd)
    decreases |order|
  {
    if order == [] then Some(b)
    else
      match ConvertBag(b, td, children, order[0])
      case None => None
      case Some(b') =>
        match ConvertAll(b', td, children, order[1..])
        case None => None
        case Some(b'') =>
          KeepsTrans(b.ntd, b'.ntd, b''.ntd);
          Some(b'')
  }

  datatype NiceTd = NiceTd(td: Td, relations: NodeRelations.Relations)

  /** The first bag of the new decomposition: the root's vertex set, under
      the original root and maximal bag size. */
  function Seed(td: Td): (r: Build)
    requires Indexed(td) && td.root.Some? && td.root.value < |td.bags|
    ensures r.ntd.root == td.root && r.ntd.maxBagSize == td.maxBagSize && Indexed(r.ntd)
    ensures |r.ntd.bags| == 1 && r.ntd.bags[0].vertexSet == td.bags[td.root.value].vertexSet
  {
    var ab := AddBag(Td([], td.root, td.maxBagSize), td.bags[td.root.value].vertexSet);
    var ntd := ab.1;
    Build(ntd, BagRelationsNew(td.bags))
  }

  /** The breadth-first loop from the seed, `None` if it panics or the walk
      runs out of `fuel`. */
  function Grow(td: Td, children: map<nat, seq<nat>>, fuel: nat): (r: Option<Td>)
    requires Indexed(td) && td.root.Some? && td.root.value < |td.bags|
    ensures r.Some? ==> Keeps(Seed(td).ntd, r.value)
  {
    var st := TdIters.TdBfsNew(td).value;
    assert TdIters.InBags(td, st.queue);
    match TdIters.TdBfsDrain(td, st, fuel)
    case None => None
    case Some(order) =>
      match ConvertAll(Seed(td), td, children, order)
      case None => None
      case Some(b) => Some(b.ntd)
  }

  /** `From<&TreeDecomposition>`: a new decomposition with the root and
      maximal bag size of `td`, whose first bag copies the root's vertex set,
      grown bag by bag in breadth-first order; then its node relations.
      `None` where the source panics or a walk runs out of `fuel`. */
  function Convert(td: Td, fuel: nat): (r: Option<NiceTd>)
    requires Indexed(td)
    ensures r.Some? ==> td.root.Some? && td.root.value < |td.bags|
    ensures r.Some? ==> r.value.td.root == td.root && r.value.td.maxBagSize == td.maxBagSize
    ensures r.Some? ==> |r.value.td.bags| > 0 && r.value.td.bags[0].vertexSet == td.bags[td.root.value].vertexSet
    ensures r.Some? ==> Indexed(r.value.td)
  {
    match NodeRelations.New(td, fuel)
    case None => None
    case Some(rels) =>
      if td.root.None? || td.root.value >= |td.bags| then None
      else
        match Grow(td, rels.children, fuel)
        case None => None
        case Some(ntd) =>
          match NodeRelations.New(ntd, fuel)
          case None => None
          case Some(rel) => Some(NiceTd(ntd, rel))
  }
}
