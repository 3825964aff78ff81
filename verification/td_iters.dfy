/** The two traversals of a tree decomposition: `PostOrderIter` (children
    before parents, by a depth-first stack) and `TreeDecompBfsIter`
    (breadth-first from the root). Both keep a visited flag per bag; the
    model keeps the set of visited bag ids. */
module TdIters {
  import opened Wrappers
  import opened TreeDecomps
  import opened SetSeqs

  predicate InBags(td: Td, xs: seq<nat>) {
    forall i :: 0 <= i < |xs| ==> xs[i] < |td.bags|
  }

  /** The bags not visited yet; it shrinks as the traversals proceed. */
  function Unvisited(td: Td, visited: set<nat>): set<nat> {
    set i | 0 <= i < |td.bags| && i !in visited
  }

  lemma UnvisitedShrinks(td: Td, v1: set<nat>, v2: set<nat>, x: nat)
    requires v1 <= v2 && x < |td.bags| && x !in v1 && x in v2
    ensures Unvisited(td, v2) < Unvisited(td, v1)
  {
    assert x in Unvisited(td, v1) && x !in Unvisited(td, v2);
  }

  // ---------------------------------------------------------------- post order

  datatype PostOrder = PostOrder(stack: seq<nat>, visited: set<nat>)

  /** `PostOrderIter::new`: the root on the stack, nothing visited. */
  function PostOrderNew(td: Td): (r: Option<PostOrder>)
    ensures r.Some? <==> td.root.Some?
    ensures r.Some? ==> r.value == PostOrder([td.root.value], {})
  {
    if td.root.None? then None else Some(PostOrder([td.root.value], {}))
  }

  /** `b` extends `a`: the stack grows by distinct entries, each newly
      visited, and every newly visited bag is among them. */
  predicate Grows(a: PostOrder, b: PostOrder) {
    a.visited <= b.visited && a.stack <= b.stack &&
    (forall i :: |a.stack| <= i < |b.stack| ==> b.stack[i] in b.visited && b.stack[i] !in a.visited) &&
    (forall x :: x in b.visited && x !in a.visited ==> x in b.stack[|a.stack|..]) &&
    Distinct(b.stack[|a.stack|..])
  }

  /** `traverse_subtrees` over the neighbour list `ns`: push each unvisited
      neighbour, mark it visited and descend into it first. */
  function Traverse(td: Td, ns: seq<nat>, st: PostOrder): (r: PostOrder)
    requires NeighborsInRange(td) && InBags(td, ns) && InBags(td, st.stack)
    ensures InBags(td, r.stack)
    ensures Grows(st, r)
    ensures forall n :: n in ns ==> n in r.visited
    ensures NeighborsVisited(td, r.stack, |st.stack|, r.visited)
    decreases Unvisited(td, st.visited), |ns|
  {
    if ns == [] then st
    else if ns[0] in st.visited then Traverse(td, ns[1..], st)
    else
      var c := ns[0];
      var st1 := PostOrder(st.stack + [c], st.visited + {c});
      UnvisitedShrinks(td, st.visited, st1.visited, c);
      var st2 := Traverse(td, td.bags[c].neighbors, st1);
      var r := Traverse(td, ns[1..], st2);
      PushGrows(st, c, st1);
      GrowsTrans(st, st1, st2);
      GrowsTrans(st, st2, r);
      NeighborsVisitedGlue(td, |st.stack|, c, st2, r);
      r
  }

  /** The bags of `s` from index `k` on have all their neighbours in `v`. */
  predicate NeighborsVisited(td: Td, s: seq<nat>, k: nat, v: set<nat>)
    requires InBags(td, s)
  {
    forall i :: k <= i < |s| ==> forall n :: n in td.bags[s[i]].neighbors ==> n in v
  }

  lemma NeighborsVisitedGlue(td: Td, k: nat, c: nat, st2: PostOrder, r: PostOrder)
    requires InBags(td, st2.stack) && InBags(td, r.stack)
    requires k < |st2.stack| && st2.stack[k] == c && st2.stack <= r.stack && st2.visited <= r.visited
    requires forall n :: n in td.bags[c].neighbors ==> n in st2.visited
    requires NeighborsVisited(td, st2.stack, k + 1, st2.visited)
    requires NeighborsVisited(td, r.stack, |st2.stack|, r.visited)
    ensures NeighborsVisited(td, r.stack, k, r.visited)
  {
    forall i | k <= i < |r.stack|
      ensures forall n :: n in td.bags[r.stack[i]].neighbors ==> n in r.visited
    {
      if i < |st2.stack| {
        assert r.stack[i] == st2.stack[i];
      }
    }
  }

  /** Pushing an unvisited bag and marking it visited extends the state. */
  lemma PushGrows(st: PostOrder, c: nat, st1: PostOrder)
    requires c !in st.visited && st1 == PostOrder(st.stack + [c], st.visited + {c})
    ensures Grows(st, st1)
  {
    assert st1.stack[|st.stack|..] == [c];
  }

  lemma GrowsTrans(a: PostOrder, b: PostOrder, c: PostOrder)
    requires Grows(a, b) && Grows(b, c)
    ensures Grows(a, c)
  {
    GrowsCover(a, b, c);
    GrowsDistinct(a, b, c);
  }

  lemma GrowsCover(a: PostOrder, b: PostOrder, c: PostOrder)
    requires Grows(a, b) && Grows(b, c)
    ensures forall x :: x in c.visited && x !in a.visited ==> x in c.stack[|a.stack|..]
  {
    var k, m := |a.stack|, |b.stack|;
    forall x | x in c.visited && x !in a.visited
      ensures x in c.stack[k..]
    {
      if x in b.visited {
        var j :| 0 <= j < |b.stack[k..]| && b.stack[k..][j] == x;
        assert c.stack[k..][j] == x;
      } else {
        var j :| 0 <= j < |c.stack[m..]| && c.stack[m..][j] == x;
        assert c.stack[k..][m - k + j] == x;
      }
    }
  }

  lemma GrowsDistinct(a: PostOrder, b: PostOrder, c: PostOrder)
    requires Grows(a, b) && Grows(b, c)
    ensures Distinct(c.stack[|a.stack|..])
  {
    var k, m := |a.stack|, |b.stack|;
    forall i, j | 0 <= i < j < |c.stack[k..]|
      ensures c.stack[k..][i] != c.stack[k..][j]
    {
      var x, y := k + i, k + j;
      if y < m {
        assert c.stack[x] == b.stack[k..][x - k];
        assert c.stack[y] == b.stack[k..][y - k];
      } else if x >= m {
        assert c.stack[x] == c.stack[m..][x - m];
        assert c.stack[y] == c.stack[m..][y - m];
      } else {
        assert c.stack[x] == b.stack[x];
      }
    }
  }

  /** `next`: pop the top when it has no neighbours or was visited; else
      visit it, push its subtrees and look again. */
  function Next(td: Td, st: PostOrder): (r: (Option<nat>, PostOrder))
    requires NeighborsInRange(td) && InBags(td, st.stack)
    ensures InBags(td, r.1.stack) && st.visited <= r.1.visited
    ensures r.0.None? <==> st.stack == []
    ensures r.0.None? ==> r.1 == st
    ensures r.0.Some? ==> r.0.value < |td.bags|
    ensures r.0.Some? ==> r.0.value in st.stack || r.0.value !in st.visited
    ensures forall y :: y in r.1.stack ==> y in st.stack || y !in st.visited
    ensures r.0.Some? ==>
      Unvisited(td, r.1.visited) < Unvisited(td, st.visited) ||
      (r.1.visited == st.visited && r.1.stack == st.stack[..|st.stack| - 1] && r.0.value == st.stack[|st.stack| - 1])
    decreases Unvisited(td, st.visited)
  {
    if st.stack == [] then (None, st)
    else
      var top := st.stack[|st.stack| - 1];
      if td.bags[top].neighbors == [] || top in st.visited then
        (Some(top), PostOrder(st.stack[..|st.stack| - 1], st.visited))
      else
        var st1 := PostOrder(st.stack, st.visited + {top});
        UnvisitedShrinks(td, st.visited, st1.visited, top);
        var st2 := Traverse(td, td.bags[top].neighbors, st1);
        var r := Next(td, st2);
        assert Unvisited(td, r.1.visited) <= Unvisited(td, st1.visited);
        assert forall y :: y in st2.stack ==> y in st.stack || y !in st.visited by {
          forall y | y in st2.stack
            ensures y in st.stack || y !in st.visited
          {
            var i :| 0 <= i < |st2.stack| && st2.stack[i] == y;
            if i < |st.stack| {
              assert st.stack[i] == y;
            }
          }
        }
        r
  }

  /** Every bag the iterator still returns, in order. */
  function Drain(td: Td, st: PostOrder): seq<nat>
    requires NeighborsInRange(td) && InBags(td, st.stack)
    decreases Unvisited(td, st.visited), |st.stack|
  {
    var n := Next(td, st);
    var x, st' := n.0, n.1;
    match x
    case None => []
    case Some(b) => [b] + Drain(td, st')
  }

  /** A visited bag on the stack has all its neighbours visited. */
  predicate Done(td: Td, st: PostOrder)
    requires InBags(td, st.stack)
  {
    forall i :: 0 <= i < |st.stack| && st.stack[i] in st.visited ==>
      forall n :: n in td.bags[st.stack[i]].neighbors ==> n in st.visited
  }

  /** The shape of the stack between two calls: the root at the bottom,
      unvisited only before the first call, every other entry visited,
      no entry twice. */
  predicate PoInv(td: Td, root: nat, st: PostOrder) {
    root < |td.bags| && InBags(td, st.stack) && Distinct(st.stack) &&
    (st.stack != [] ==> st.stack[0] == root) &&
    (forall i :: 0 < i < |st.stack| ==> st.stack[i] in st.visited) &&
    (root !in st.visited ==> |st.stack| <= 1) &&
    Done(td, st)
  }

  /** `next` keeps the stack's shape. A returned bag has all its neighbours
      visited, is off the stack, and is either visited or the root
      returned last. */
  lemma {:induction false} NextInv(td: Td, root: nat, st: PostOrder)
    requires NeighborsInRange(td) && PoInv(td, root, st)
    ensures PoInv(td, root, Next(td, st).1)
    ensures var n := Next(td, st); var x, st' := n.0, n.1;
      x.Some? ==> ((forall n :: n in td.bags[x.value].neighbors ==> n in st'.visited) &&
        x.value !in st'.stack && (x.value in st'.visited || (st'.stack == [] && x.value == root)))
    decreases Unvisited(td, st.visited)
  {
    if st.stack != [] {
      var top := st.stack[|st.stack| - 1];
      if td.bags[top].neighbors == [] || top in st.visited {
        var st' := PostOrder(st.stack[..|st.stack| - 1], st.visited);
        assert Next(td, st).1 == st';
        assert forall i :: 0 <= i < |st'.stack| ==> st'.stack[i] == st.stack[i];
        if st'.stack != [] {
          assert top in st.visited by {
            assert st.stack[|st.stack| - 1] == top;
          }
        }
      } else {
        var st1 := PostOrder(st.stack, st.visited + {top});
        UnvisitedShrinks(td, st.visited, st1.visited, top);
        var st2 := Traverse(td, td.bags[top].neighbors, st1);
        assert Next(td, st) == Next(td, st2);
        TraverseInv(td, root, st, top, st1, st2);
        NextInv(td, root, st2);
      }
    }
  }

  /** Visiting the top and pushing its subtrees keeps the stack's shape:
      the top can only be the root, alone on the stack. */
  lemma TraverseInv(td: Td, root: nat, st: PostOrder, top: nat, st1: PostOrder, st2: PostOrder)
    requires NeighborsInRange(td) && PoInv(td, root, st) && st.stack != []
    requires top == st.stack[|st.stack| - 1] && top !in st.visited
    requires st1 == PostOrder(st.stack, st.visited + {top})
    requires st2 == Traverse(td, td.bags[top].neighbors, st1)
    ensures PoInv(td, root, st2)
  {
    assert |st.stack| == 1;
    assert st2.stack[0] == root;
    StackOnRoot(td, root, st2.stack, st1.visited, st2.visited, td.bags[top].neighbors);
  }

  /** A stack of the root followed by fresh distinct bags, all of whose
      neighbours are visited. */
  lemma StackOnRoot(td: Td, root: nat, s: seq<nat>, v1: set<nat>, v2: set<nat>, ns: seq<nat>)
    requires root < |td.bags| && InBags(td, s) && |s| >= 1 && s[0] == root && root in v1 && v1 <= v2
    requires ns == td.bags[root].neighbors && forall n :: n in ns ==> n in v2
    requires forall i :: 1 <= i < |s| ==> s[i] in v2 && s[i] !in v1
    requires forall i :: 1 <= i < |s| ==> forall n :: n in td.bags[s[i]].neighbors ==> n in v2
    requires Distinct(s[1..])
    ensures PoInv(td, root, PostOrder(s, v2))
  {
    forall i, j | 0 <= i < j < |s|
      ensures s[i] != s[j]
    {
      if i > 0 {
        assert s[i] == s[1..][i - 1] && s[j] == s[1..][j - 1];
      }
    }
  }

  /** Nothing is returned twice. */
  lemma {:induction false} DrainDistinct(td: Td, root: nat, st: PostOrder)
    requires NeighborsInRange(td) && PoInv(td, root, st)
    ensures Distinct(Drain(td, st))
    decreases Unvisited(td, st.visited), |st.stack|
  {
    var n := Next(td, st);
    var x, st' := n.0, n.1;
    if x.Some? {
      NextInv(td, root, st);
      DrainDistinct(td, root, st');
      DrainFrom(td, root, st');
      var d := Drain(td, st');
      assert Drain(td, st) == [x.value] + d;
      assert x.value !in d by {
        if st'.stack == [] {
          assert d == [];
        }
      }
    }
  }

  /** Everything returned was on the stack or unvisited. */
  lemma {:induction false} DrainFrom(td: Td, root: nat, st: PostOrder)
    requires NeighborsInRange(td) && PoInv(td, root, st)
    ensures forall x :: x in Drain(td, st) ==> x in st.stack || x in Unvisited(td, st.visited)
    decreases Unvisited(td, st.visited), |st.stack|
  {
    var n := Next(td, st);
    var x, st' := n.0, n.1;
    if x.Some? {
      NextInv(td, root, st);
      DrainFrom(td, root, st');
      assert Drain(td, st) == [x.value] + Drain(td, st');
      assert Unvisited(td, st'.visited) <= Unvisited(td, st.visited);
    }
  }

  /** The root is returned last. */
  lemma {:induction false} DrainRootLast(td: Td, root: nat, st: PostOrder)
    requires NeighborsInRange(td) && PoInv(td, root, st) && st.stack != []
    ensures Drain(td, st) != [] && Drain(td, st)[|Drain(td, st)| - 1] == root
    decreases Unvisited(td, st.visited), |st.stack|
  {
    var n := Next(td, st);
    var x, st' := n.0, n.1;
    NextInv(td, root, st);
    if st'.stack != [] {
      DrainRootLast(td, root, st');
    }
  }

  /** From the start state: bags only, every bag at most once, the root last. */
  lemma PostOrderRun(td: Td, d: seq<nat>)
    requires NeighborsInRange(td) && td.root.Some? && td.root.value < |td.bags|
    requires d == Drain(td, PostOrderNew(td).value)
    ensures InBags(td, d) && Distinct(d)
    ensures d != [] && d[|d| - 1] == td.root.value
  {
    var st := PostOrderNew(td).value;
    DrainDistinct(td, td.root.value, st);
    DrainFrom(td, td.root.value, st);
    DrainRootLast(td, td.root.value, st);
    assert forall k :: 0 <= k < |d| ==> d[k] in d;
  }

  // ---------------------------------------------------------- breadth first

  datatype TdBfs = TdBfs(queue: seq<nat>, visited: set<nat>)

  /** `TreeDecompBfsIter::new`: the root in the queue, nothing visited. */
  function TdBfsNew(td: Td): (r: Option<TdBfs>)
    ensures r.Some? <==> td.root.Some?
    ensures r.Some? ==> r.value == TdBfs([td.root.value], {})
  {
    if td.root.None? then None else Some(TdBfs([td.root.value], {}))
  }

  /** The neighbours in `ns` that are not visited, in order. */
  function Unvisiteds(ns: seq<nat>, visited: set<nat>): (r: seq<nat>)
    ensures forall n :: n in r <==> n in ns && n !in visited
    ensures |r| <= |ns|
  {
    if ns == [] then []
    else (if ns[0] in visited then [] else [ns[0]]) + Unvisiteds(ns[1..], visited)
  }

  /** `next`: `None` on an empty queue; otherwise dequeue a bag, mark it
      visited and enqueue its unvisited neighbours. */
  function TdBfsNext(td: Td, st: TdBfs): (r: (Option<nat>, TdBfs))
    requires NeighborsInRange(td) && InBags(td, st.queue)
    ensures InBags(td, r.1.queue)
    ensures r.0.None? <==> st.queue == []
    ensures r.0.None? ==> r.1 == st
    ensures r.0.Some? ==> r.0.value == st.queue[0] && r.1.visited == st.visited + {st.queue[0]}
    ensures r.0.Some? ==> st.queue[1..] <= r.1.queue
    ensures r.0.Some? ==> forall n :: n in r.1.queue[|st.queue| - 1..] <==>
      n in td.bags[st.queue[0]].neighbors && n !in r.1.visited
  {
    if st.queue == [] then (None, st)
    else
      var v := st.queue[0];
      var visited := st.visited + {v};
      var added := Unvisiteds(td.bags[v].neighbors, visited);
      var q := st.queue[1..] + added;
      assert q[|st.queue| - 1..] == added;
      forall i | 0 <= i < |q|
        ensures q[i] < |td.bags|
      {
        if i >= |st.queue| - 1 {
          var ns := td.bags[v].neighbors;
          assert q[i] == added[i - (|st.queue| - 1)];
          assert q[i] in ns;
          var j :| 0 <= j < |ns| && ns[j] == q[i];
        }
      }
      (Some(v), TdBfs(q, visited))
  }

  /** Every bag the iterator returns, cut off after `fuel` calls. */
  function TdBfsDrain(td: Td, st: TdBfs, fuel: nat): (r: Option<seq<nat>>)
    requires NeighborsInRange(td) && InBags(td, st.queue)
    ensures r.Some? && st.queue != [] ==> |r.value| > 0 && r.value[0] == st.queue[0]
    ensures r.Some? ==> InBags(td, r.value)
    decreases fuel
  {
    match TdBfsNext(td, st)
    case (None, _) => Some([])
    case (Some(b), st') =>
      if fuel == 0 then None
      else
        match TdBfsDrain(td, st', fuel - 1)
        case None => None
        case Some(rest) => Some([b] + rest)
  }

  /** The root comes first. */
  lemma TdBfsRootFirst(td: Td, fuel: nat)
    requires NeighborsInRange(td) && td.root.Some? && td.root.value < |td.bags|
    requires TdBfsDrain(td, TdBfsNew(td).value, fuel).Some?
    ensures TdBfsDrain(td, TdBfsNew(td).value, fuel).value[0] == td.root.value
  {
  }
}
