/** The maximum-independent-set dynamic programme over a nice tree
    decomposition: one table entry per bag, one item per subset of the bag
    (leaf, introduce, forget and join rules), filled in post order, then a
    walk back down the construction pointers that collects the chosen sets.
    Panics of the source (a missing key, an index past a vector, an `unwrap`
    of `None`, a subtraction below zero) are `None`. */
module MisFinder {
  import opened Wrappers
  import opened SetSeqs
  import opened MisSizes
  import opened DynTables
  import SubsetIter
  import opened TreeDecomps
  import TdIters

  /** The adjacency matrix: `adj[u][w]` says whether `u` and `w` are adjacent. */
  type Adjacency = seq<seq<bool>>

  /** A square, symmetric adjacency matrix. */
  predicate Symmetric(adj: Adjacency) {
    (forall i :: 0 <= i < |adj| ==> |adj[i]| == |adj|) &&
    forall i, j :: 0 <= i < |adj| && 0 <= j < |adj| ==> adj[i][j] == adj[j][i]
  }

  /** No two distinct vertices of `s` are adjacent. */
  predicate Independent(adj: Adjacency, s: set<nat>) {
    forall u, w :: u in s && w in s && u != w ==> u < |adj| && w < |adj[u]| && !adj[u][w]
  }

  // ------------------------------------------------------------- is_independent

  /** `all` over the vertices in iteration order: stops at the first
      neighbour of `v`; `None` where it would index past the matrix. */
  function IndependentOf(adj: Adjacency, v: nat, xs: seq<nat>): (r: Option<bool>)
    ensures r == Some(true) <==> forall u :: u in xs ==> v < |adj| && u < |adj[v]| && !adj[v][u]
    ensures r == Some(false) ==> exists u :: u in xs && v < |adj| && u < |adj[v]| && adj[v][u]
    ensures (v < |adj| && forall u :: u in xs ==> u < |adj[v]|) ==> r.Some?
  {
    if xs == [] then Some(true)
    else if v >= |adj| || xs[0] >= |adj[v]| then
      assert xs[0] in xs;
      None
    else if adj[v][xs[0]] then
      assert xs[0] in xs;
      Some(false)
    else
      var r := IndependentOf(adj, v, xs[1..]);
      assert forall u :: u in xs <==> u == xs[0] || u in xs[1..];
      r
  }

  /** `is_independent(adj, v, s)`: no vertex of `s` is adjacent to `v`. */
  function IsIndependent(adj: Adjacency, v: nat, s: set<nat>): (r: Option<bool>)
    ensures r == Some(true) <==> forall u :: u in s ==> v < |adj| && u < |adj[v]| && !adj[v][u]
    ensures r == Some(false) ==> exists u :: u in s && v < |adj| && u < |adj[v]| && adj[v][u]
    ensures (v < |adj| && forall u :: u in s ==> u < |adj[v]|) ==> r.Some?
  {
    IndependentOf(adj, v, Elems(s))
  }

  // ------------------------------------------------------------------ items

  /** The construction pointers of one item: the child items it was built from. */
  datatype Back = Back(left: Option<nat>, right: Option<nat>)

  /** The rule of a bag: a leaf, introduce or forget of `v` above its one
      child, a join of two children, or a one-child bag with the child's
      set, for which the source adds no item at all. */
  datatype Node = Leaf | Introduce(child: nat, v: nat) | Forget(child: nat, v: nat) | Join(left: nat, right: nat) | Same

  /** Item `i` of bag `b`'s entry is subset `s` with size `size`. */
  predicate Holds(t: NormalTable, b: nat, i: nat, s: set<nat>, size: MisSize) {
    b in t && i < |t[b]| && t[b][i] == Item(s, size)
  }

  /** The item of subset `s` of an introduce bag: the child's value for `s`
      when `v` is not in `s`; the child's value for `s - {v}` plus one when
      `v` is in `s` and has no neighbour in `s`; `Invalid` otherwise. */
  function IntroduceItem(t: NormalTable, adj: Adjacency, c: nat, v: nat, s: set<nat>): (r: Option<(Item, Back)>)
    ensures r.Some? ==> r.value.0.mis == s
    ensures v !in s ==> (r.Some? <==> NormalGet(t, c, s).Some?)
    ensures v !in s && r.Some? ==>
      r.value.1.left.Some? && r.value.1.right.None? && Holds(t, c, r.value.1.left.value, s, r.value.0.size)
    ensures v in s && IsIndependent(adj, v, s) == Some(true) ==> (r.Some? <==> NormalGet(t, c, s - {v}).Some?)
    ensures v in s && IsIndependent(adj, v, s) == Some(true) && r.Some? ==>
      r.value.1.left.Some? && r.value.1.right.None? &&
      exists m :: Holds(t, c, r.value.1.left.value, s - {v}, m) && r.value.0.size == Add(m, Valid(1))
    ensures v in s && IsIndependent(adj, v, s) == Some(false) ==> r == Some((Item(s, Invalid), Back(None, None)))
    ensures v in s && IsIndependent(adj, v, s).None? ==> r.None?
  {
    if v !in s then
      match NormalGet(t, c, s)
      case None => None
      case Some((i, value)) => Some((Item(s, value), Back(Some(i), None)))
    else
      var independent := IsIndependent(adj, v, s);
      if independent.None? then None
      else if independent.value then
        match NormalGet(t, c, s - {v})
        case None => None
        case Some((i, value)) => Some((Item(s, Add(value, Valid(1))), Back(Some(i), None)))
      else Some((Item(s, Invalid), Back(None, None)))
  }

  /** The item of subset `s` of a forget bag: the larger of the child's
      values for `s + {v}` and `s`, preferring `s` on a tie (`max_by`
      returns its second argument unless the first is greater). */
  function ForgetItem(t: NormalTable, c: nat, v: nat, s: set<nat>): (r: Option<(Item, Back)>)
    ensures r.Some? <==> NormalGet(t, c, s).Some? && NormalGet(t, c, s + {v}).Some?
    ensures r.Some? ==> r.value.0.mis == s && r.value.1.left.Some? && r.value.1.right.None?
    ensures r.Some? ==>
      var without := NormalGet(t, c, s).value.1;
      var with := NormalGet(t, c, s + {v}).value.1;
      r.value.0.size == MaxBy(with, without) &&
      (Holds(t, c, r.value.1.left.value, s, without) || Holds(t, c, r.value.1.left.value, s + {v}, with))
  {
    match (NormalGet(t, c, s), NormalGet(t, c, s + {v}))
    case (Some(without), Some(with)) =>
      var (i, value) := if Cmp(with.1, without.1) == Greater then with else without;
      Some((Item(s, value), Back(Some(i), None)))
    case _ => None
  }

  /** The item of subset `s` of a join bag: left plus right minus `|s|`;
      `None` when the subtraction would go below zero. */
  function JoinItem(t: NormalTable, l: nat, rt: nat, s: set<nat>): (r: Option<(Item, Back)>)
    ensures r.Some? ==> NormalGet(t, l, s).Some? && NormalGet(t, rt, s).Some?
    ensures r.Some? ==>
      var (i, left) := NormalGet(t, l, s).value;
      var (j, right) := NormalGet(t, rt, s).value;
      r.value.0.mis == s && r.value.1 == Back(Some(i), Some(j)) &&
      (r.value.0.size.Valid? <==> left.Valid? && right.Valid?) &&
      (r.value.0.size.Valid? ==> r.value.0.size.n + |s| == left.n + right.n)
    ensures NormalGet(t, l, s).Some? && NormalGet(t, rt, s).Some? ==>
      (r.None? <==> Add(NormalGet(t, l, s).value.1, NormalGet(t, rt, s).value.1).Valid? &&
                    Add(NormalGet(t, l, s).value.1, NormalGet(t, rt, s).value.1).n < |s|)
  {
    match (NormalGet(t, l, s), NormalGet(t, rt, s))
    case (Some((i, left)), Some((j, right))) =>
      var sum := Add(left, right);
      if sum.Valid? && sum.n < |s| then None
      else Some((Item(s, Sub(sum, Valid(|s|))), Back(Some(i), Some(j))))
    case _ => None
  }

  /** The item of subset `s` by the bag's rule; only the rules that build
      items from a child have one. */
  function ItemFor(t: NormalTable, adj: Adjacency, node: Node, s: set<nat>): (r: Option<(Item, Back)>)
    ensures r.Some? ==> r.value.0.mis == s && node !in {Leaf, Same}
  {
    match node
    case Introduce(c, v) => IntroduceItem(t, adj, c, v, s)
    case Forget(c, v) => ForgetItem(t, c, v, s)
    case Join(l, rt) => JoinItem(t, l, rt, s)
    case _ => None
  }

  /** The values of a sequence of options, or `None` if one is missing. */
  function AllSome<X>(xs: seq<Option<X>>): (r: Option<seq<X>>)
    ensures r.Some? <==> forall k :: 0 <= k < |xs| ==> xs[k].Some?
    ensures r.Some? ==> |r.value| == |xs| && forall k :: 0 <= k < |xs| ==> xs[k] == Some(r.value[k])
  {
    if xs == [] then Some([])
    else if xs[0].None? then None
    else
      match AllSome(xs[1..])
      case None =>
        assert exists k :: 1 <= k < |xs| && xs[k].None? by {
          var k :| 0 <= k < |xs[1..]| && xs[1..][k].None?;
          assert xs[1..][k] == xs[k + 1];
        }
        None
      case Some(rest) =>
        assert forall k :: 1 <= k < |xs| ==> xs[1..][k - 1] == xs[k];
        Some([xs[0].value] + rest)
  }

  /** Splits a sequence of pairs into its two components. */
  function Unzip<A, B>(pairs: seq<(A, B)>): (r: (seq<A>, seq<B>))
    ensures |r.0| == |pairs| && |r.1| == |pairs|
    ensures forall k :: 0 <= k < |pairs| ==> pairs[k] == (r.0[k], r.1[k])
  {
    (seq(|pairs|, k requires 0 <= k < |pairs| => pairs[k].0), seq(|pairs|, k requires 0 <= k < |pairs| => pairs[k].1))
  }

  /** The items of a bag with children, one per subset of its set `vs` in
      `SubsetIter` order, and their pointers; `None` as soon as one item
      panics. */
  function RuleEntry(t: NormalTable, adj: Adjacency, node: Node, vs: set<nat>): (r: Option<(Entry, seq<Back>)>)
    ensures r.Some? <==> forall s :: s <= vs ==> ItemFor(t, adj, node, s).Some?
    ensures r.Some? ==> |r.value.0| == |r.value.1|
    ensures r.Some? ==> forall k :: 0 <= k < |r.value.0| ==>
      r.value.0[k].mis <= vs && ItemFor(t, adj, node, r.value.0[k].mis) == Some((r.value.0[k], r.value.1[k]))
    ensures r.Some? ==> forall s :: s <= vs ==> exists k :: 0 <= k < |r.value.0| && r.value.0[k].mis == s
  {
    var subsets := Subsets(vs);
    var results := seq(|subsets|, k requires 0 <= k < |subsets| => ItemFor(t, adj, node, subsets[k]));
    match AllSome(results)
    case None =>
      assert exists s :: s <= vs && ItemFor(t, adj, node, s).None? by {
        var k :| 0 <= k < |results| && results[k].None?;
        assert subsets[k] <= vs;
      }
      None
    case Some(pairs) =>
      var (entry, backs) := Unzip(pairs);
      RuleEntryFacts(t, adj, node, vs, subsets, entry, backs);
      Some((entry, backs))
  }

  /** The items built per subset are exactly one per subset of `vs`. */
  lemma RuleEntryFacts(t: NormalTable, adj: Adjacency, node: Node, vs: set<nat>, subsets: seq<set<nat>>,
                       entry: Entry, backs: seq<Back>)
    requires subsets == Subsets(vs) && |entry| == |subsets| && |backs| == |subsets|
    requires forall k :: 0 <= k < |subsets| ==> ItemFor(t, adj, node, subsets[k]) == Some((entry[k], backs[k]))
    ensures forall s :: s <= vs ==> ItemFor(t, adj, node, s).Some?
    ensures forall k :: 0 <= k < |entry| ==>
      entry[k].mis <= vs && ItemFor(t, adj, node, entry[k].mis) == Some((entry[k], backs[k]))
    ensures forall s :: s <= vs ==> exists k :: 0 <= k < |entry| && entry[k].mis == s
  {
    assert forall k :: 0 <= k < |entry| ==> entry[k].mis == subsets[k];
    forall s | s <= vs
      ensures exists k :: 0 <= k < |entry| && entry[k].mis == s
    {
      var k :| 0 <= k < |subsets| && subsets[k] == s;
      assert entry[k].mis == s;
    }
  }

  /** A leaf's entry: the empty set with size zero and the bag's set with size one. */
  function LeafEntry(vs: set<nat>): (e: Entry)
    ensures |e| == 2 && e[0] == Item({}, Valid(0)) && e[1] == Item(vs, Valid(1))
  {
    [Item({}, Valid(0)), Item(vs, Valid(1))]
  }

  /** The subsets `SubsetIter` yields for a bag, in order: each subset once. */
  function Subsets(vs: set<nat>): (r: seq<set<nat>>)
    ensures forall k :: 0 <= k < |r| ==> r[k] <= vs
    ensures forall s :: s <= vs ==> s in r
  {
    var xs := Elems(vs);
    SubsetIter.PowerSeqSubsets(xs);
    forall s | s <= vs
      ensures s in SubsetIter.PowerSeq(xs)
    {
      SubsetIter.PowerSeqComplete(xs, s);
    }
    SubsetIter.PowerSeq(xs)
  }

  /** The rule of bag `b`, found from its children (looked up by the bag's
      id): none is a leaf, two a join, and with one child the first vertex
      only the bag has is introduced, else the first vertex only the child
      has is forgotten. `None` where the source panics: no children entry,
      a child index past the bags, a child without a table entry, or more
      than two children. */
  function NodeOf(t: NormalTable, ntd: Td, children: map<nat, seq<nat>>, b: nat): (r: Option<Node>)
    requires b < |ntd.bags|
    ensures r == Some(Leaf) <==> ntd.bags[b].id in children && |children[ntd.bags[b].id]| == 0
    ensures r.Some? && !r.value.Leaf? ==>
      ntd.bags[b].id in children &&
      var kids := children[ntd.bags[b].id];
      1 <= |kids| <= 2 && forall k :: 0 <= k < |kids| ==> kids[k] < |ntd.bags|
    ensures r.Some? && r.value.Introduce? ==>
      var c := children[ntd.bags[b].id][0];
      |children[ntd.bags[b].id]| == 1 && r.value.child == ntd.bags[c].id && r.value.child in t &&
      r.value.v in ntd.bags[b].vertexSet - ntd.bags[c].vertexSet &&
      forall x :: x in ntd.bags[b].vertexSet - ntd.bags[c].vertexSet ==> r.value.v <= x
    ensures r.Some? && r.value.Forget? ==>
      var c := children[ntd.bags[b].id][0];
      |children[ntd.bags[b].id]| == 1 && r.value.child == ntd.bags[c].id && r.value.child in t &&
      ntd.bags[b].vertexSet <= ntd.bags[c].vertexSet &&
      r.value.v in ntd.bags[c].vertexSet - ntd.bags[b].vertexSet
    ensures r.Some? && r.value.Same? ==>
      |children[ntd.bags[b].id]| == 1 && ntd.bags[children[ntd.bags[b].id][0]].vertexSet == ntd.bags[b].vertexSet
    ensures r.Some? && r.value.Join? ==>
      var kids := children[ntd.bags[b].id];
      |kids| == 2 && r.value.left == ntd.bags[kids[0]].id && r.value.right == ntd.bags[kids[1]].id
  {
    var id := ntd.bags[b].id;
    if id !in children then None
    else
      var kids := children[id];
      if |kids| == 0 then Some(Leaf)
      else if |kids| == 1 then
        var c := kids[0];
        if c >= |ntd.bags| || ntd.bags[c].id !in t then None
        else
          var up := ntd.bags[b].vertexSet - ntd.bags[c].vertexSet;
          var down := ntd.bags[c].vertexSet - ntd.bags[b].vertexSet;
          if up != {} then Some(Introduce(ntd.bags[c].id, MinOf(up)))
          else if down != {} then
            assert ntd.bags[b].vertexSet <= ntd.bags[c].vertexSet by {
              forall x | x in ntd.bags[b].vertexSet ensures x in ntd.bags[c].vertexSet {
                assert x !in up;
              }
            }
            Some(Forget(ntd.bags[c].id, MinOf(down)))
          else Some(Same)
      else if |kids| == 2 then
        if kids[0] >= |ntd.bags| || kids[1] >= |ntd.bags| then None
        else Some(Join(ntd.bags[kids[0]].id, ntd.bags[kids[1]].id))
      else None
  }

  /** The entry of bag `b` and its construction pointers: the leaf's two
      items, nothing for an unchanged set, or one item per subset. */
  function BagEntry(t: NormalTable, adj: Adjacency, ntd: Td, children: map<nat, seq<nat>>, b: nat)
    : (r: Option<(Entry, seq<Back>)>)
    requires b < |ntd.bags|
    ensures NodeOf(t, ntd, children, b).None? ==> r.None?
    ensures NodeOf(t, ntd, children, b) == Some(Leaf) ==> r == Some((LeafEntry(ntd.bags[b].vertexSet), []))
    ensures NodeOf(t, ntd, children, b) == Some(Same) ==> r == Some(([], []))
    ensures NodeOf(t, ntd, children, b).Some? && NodeOf(t, ntd, children, b).value !in {Leaf, Same} ==>
      r == RuleEntry(t, adj, NodeOf(t, ntd, children, b).value, ntd.bags[b].vertexSet)
    ensures r.Some? ==> forall k :: 0 <= k < |r.value.0| ==> r.value.0[k].mis <= ntd.bags[b].vertexSet
  {
    var vs := ntd.bags[b].vertexSet;
    match NodeOf(t, ntd, children, b)
    case None => None
    case Some(Leaf) => Some((LeafEntry(vs), []))
    case Some(Same) => Some(([], []))
    case Some(node) => RuleEntry(t, adj, node, vs)
  }

  // ---------------------------------------------------------- the table run

  /** The tables of the run: the items per bag id, and the construction
      pointers per bag id (a vector with one slot per bag). */
  datatype Tables = Tables(items: NormalTable, constr: seq<seq<Back>>)

  /** The post-order loop over `order`: each bag's entry replaces the one
      under its id, and its pointers are appended to the id's slot. */
  function BuildTables(tb: Tables, adj: Adjacency, ntd: Td, children: map<nat, seq<nat>>, order: seq<nat>)
    : (r: Option<Tables>)
    requires forall k :: 0 <= k < |order| ==> order[k] < |ntd.bags|
    ensures r.Some? ==> |r.value.constr| == |tb.constr| && tb.items.Keys <= r.value.items.Keys
    ensures r.Some? ==> forall k :: 0 <= k < |order| ==> ntd.bags[order[k]].id in r.value.items
    decreases |order|
  {
    if order == [] then Some(tb)
    else
      var b := order[0];
      var id := ntd.bags[b].id;
      match BagEntry(tb.items, adj, ntd, children, b)
      case None => None
      case Some((entry, backs)) =>
        if id >= |tb.constr| then None
        else
          var tb' := Tables(tb.items[id := entry], tb.constr[id := tb.constr[id] + backs]);
          assert forall k :: 1 <= k < |order| ==> order[1..][k - 1] == order[k];
          BuildTables(tb', adj, ntd, children, order[1..])
  }

  // -------------------------------------------------------------- soundness

  /** A valid item names an independent set of at most its size. */
  predicate ItemSound(adj: Adjacency, it: Item) {
    it.size.Valid? ==> |it.mis| <= it.size.n && Independent(adj, it.mis)
  }

  predicate Sound(adj: Adjacency, t: NormalTable) {
    forall b, k :: b in t && 0 <= k < |t[b]| ==> ItemSound(adj, t[b][k])
  }

  /** Every leaf bag has at most one vertex, as in a nice decomposition. */
  predicate LeavesSmall(ntd: Td, children: map<nat, seq<nat>>) {
    forall i :: 0 <= i < |ntd.bags| && ntd.bags[i].id in children && |children[ntd.bags[i].id]| == 0 ==>
      |ntd.bags[i].vertexSet| <= 1
  }

  /** Adding a vertex with no neighbour in an independent set keeps it independent. */
  lemma IndependentAdd(adj: Adjacency, v: nat, s: set<nat>)
    requires Symmetric(adj) && v in s && Independent(adj, s - {v})
    requires forall u :: u in s ==> v < |adj| && u < |adj[v]| && !adj[v][u]
    ensures Independent(adj, s)
  {
    forall u, w | u in s && w in s && u != w
      ensures u < |adj| && w < |adj[u]| && !adj[u][w]
    {
      if u == v {
      } else if w == v {
        assert adj[u][v] == adj[v][u];
      } else {
        assert u in s - {v} && w in s - {v};
      }
    }
  }

  lemma IntroduceSound(t: NormalTable, adj: Adjacency, c: nat, v: nat, s: set<nat>)
    requires Sound(adj, t) && Symmetric(adj)
    ensures IntroduceItem(t, adj, c, v, s).Some? ==> ItemSound(adj, IntroduceItem(t, adj, c, v, s).value.0)
  {
    var r := IntroduceItem(t, adj, c, v, s);
    if r.Some? && r.value.0.size.Valid? && v in s {
      var i := r.value.1.left.value;
      var m :| Holds(t, c, i, s - {v}, m) && r.value.0.size == Add(m, Valid(1));
      assert ItemSound(adj, t[c][i]);
      IndependentAdd(adj, v, s);
    }
  }

  lemma ForgetSound(t: NormalTable, adj: Adjacency, c: nat, v: nat, s: set<nat>)
    requires Sound(adj, t)
    ensures ForgetItem(t, c, v, s).Some? ==> ItemSound(adj, ForgetItem(t, c, v, s).value.0)
  {
    var r := ForgetItem(t, c, v, s);
    if r.Some? && r.value.0.size.Valid? {
      var i := r.value.1.left.value;
      assert ItemSound(adj, t[c][i]);
    }
  }

  /** A join of two sound items is defined: the sum never drops below the subset's size. */
  lemma JoinSound(t: NormalTable, adj: Adjacency, l: nat, rt: nat, s: set<nat>)
    requires Sound(adj, t)
    ensures NormalGet(t, l, s).Some? && NormalGet(t, rt, s).Some? ==> JoinItem(t, l, rt, s).Some?
    ensures JoinItem(t, l, rt, s).Some? ==> ItemSound(adj, JoinItem(t, l, rt, s).value.0)
  {
    var gl := NormalGet(t, l, s);
    var gr := NormalGet(t, rt, s);
    if gl.Some? && gr.Some? {
      assert ItemSound(adj, t[l][gl.value.0]);
      assert ItemSound(adj, t[rt][gr.value.0]);
    }
  }

  lemma ItemSoundFor(t: NormalTable, adj: Adjacency, node: Node, s: set<nat>)
    requires Sound(adj, t) && Symmetric(adj)
    ensures ItemFor(t, adj, node, s).Some? ==> ItemSound(adj, ItemFor(t, adj, node, s).value.0)
  {
    match node
    case Introduce(c, v) => IntroduceSound(t, adj, c, v, s);
    case Forget(c, v) => ForgetSound(t, adj, c, v, s);
    case Join(l, rt) => JoinSound(t, adj, l, rt, s);
    case _ =>
  }

  /** A set of at most one vertex is independent. */
  lemma SmallIndependent(adj: Adjacency, s: set<nat>)
    requires |s| <= 1
    ensures Independent(adj, s)
  {
    if s != {} {
      var x :| x in s;
      assert |s - {x}| == 0;
      assert s == {x};
    }
  }

  /** Each bag's entry keeps the table sound. */
  lemma BagEntrySound(t: NormalTable, adj: Adjacency, ntd: Td, children: map<nat, seq<nat>>, b: nat)
    requires b < |ntd.bags| && Sound(adj, t) && Symmetric(adj) && LeavesSmall(ntd, children)
    ensures BagEntry(t, adj, ntd, children, b).Some? ==>
      forall k :: 0 <= k < |BagEntry(t, adj, ntd, children, b).value.0| ==>
        ItemSound(adj, BagEntry(t, adj, ntd, children, b).value.0[k])
  {
    var r := BagEntry(t, adj, ntd, children, b);
    var node := NodeOf(t, ntd, children, b);
    if r.Some? {
      if node == Some(Leaf) {
        SmallIndependent(adj, ntd.bags[b].vertexSet);
      } else if node != Some(Same) {
        forall k | 0 <= k < |r.value.0| ensures ItemSound(adj, r.value.0[k]) {
          ItemSoundFor(t, adj, node.value, r.value.0[k].mis);
        }
      }
    }
  }

  /** Filling the tables keeps them sound, so no join in the run underflows. */
  lemma {:induction false} BuildTablesSound(tb: Tables, adj: Adjacency, ntd: Td, children: map<nat, seq<nat>>, order: seq<nat>)
    requires forall k :: 0 <= k < |order| ==> order[k] < |ntd.bags|
    requires Sound(adj, tb.items) && Symmetric(adj) && LeavesSmall(ntd, children)
    ensures BuildTables(tb, adj, ntd, children, order).Some? ==>
      Sound(adj, BuildTables(tb, adj, ntd, children, order).value.items)
    decreases |order|
  {
    if order != [] {
      var b := order[0];
      var id := ntd.bags[b].id;
      var e := BagEntry(tb.items, adj, ntd, children, b);
      if e.Some? && id < |tb.constr| {
        BagEntrySound(tb.items, adj, ntd, children, b);
        var tb' := Tables(tb.items[id := e.value.0], tb.constr[id := tb.constr[id] + e.value.1]);
        assert Sound(adj, tb'.items);
        assert forall k :: 1 <= k < |order| ==> order[1..][k - 1] == order[k];
        BuildTablesSound(tb', adj, ntd, children, order[1..]);
      }
    }
  }

  // ----------------------------------------------------------- definedness

  /** Bag `b`'s entry has an item for every subset of `vs`. */
  predicate Covers(t: NormalTable, b: nat, vs: set<nat>) {
    b in t && forall s :: s <= vs ==> exists k :: 0 <= k < |t[b]| && t[b][k].mis == s
  }

  /** What a rule over a bag with set `vs` needs from its children's entries:
      the subsets without the introduced vertex, the subsets with the
      forgotten vertex, or the bag's own subsets on both sides of a join. */
  predicate ChildrenCover(t: NormalTable, node: Node, vs: set<nat>) {
    match node
    case Introduce(c, v) => Covers(t, c, vs - {v})
    case Forget(c, v) => Covers(t, c, vs + {v})
    case Join(l, rt) => Covers(t, l, vs) && Covers(t, rt, vs)
    case _ => true
  }

  /** With children that cover what the rule needs and a sound table, a
      bag's items are all defined and cover the bag's subsets; a leaf of at
      most one vertex covers its subsets too. */
  lemma BagEntryCovers(t: NormalTable, adj: Adjacency, ntd: Td, children: map<nat, seq<nat>>, b: nat)
    requires b < |ntd.bags| && Sound(adj, t) && Symmetric(adj)
    requires forall x :: x in ntd.bags[b].vertexSet ==> x < |adj|
    requires NodeOf(t, ntd, children, b).Some? && NodeOf(t, ntd, children, b).value != Same
    requires ChildrenCover(t, NodeOf(t, ntd, children, b).value, ntd.bags[b].vertexSet)
    requires NodeOf(t, ntd, children, b).value == Leaf ==> |ntd.bags[b].vertexSet| <= 1
    ensures BagEntry(t, adj, ntd, children, b).Some?
    ensures forall s :: s <= ntd.bags[b].vertexSet ==>
      exists k :: 0 <= k < |BagEntry(t, adj, ntd, children, b).value.0| && BagEntry(t, adj, ntd, children, b).value.0[k].mis == s
  {
    var vs := ntd.bags[b].vertexSet;
    var node := NodeOf(t, ntd, children, b).value;
    if node == Leaf {
      var e := LeafEntry(vs);
      forall s | s <= vs ensures exists k :: 0 <= k < |e| && e[k].mis == s {
        if s == {} {
          assert e[0].mis == s;
        } else {
          assert |vs - s| == 0;
          assert e[1].mis == s;
        }
      }
    } else {
      forall s | s <= vs ensures ItemFor(t, adj, node, s).Some? {
        ItemDefined(t, adj, node, vs, s);
      }
    }
  }

  /** One item of a rule whose children cover what it needs is defined. */
  lemma ItemDefined(t: NormalTable, adj: Adjacency, node: Node, vs: set<nat>, s: set<nat>)
    requires node !in {Leaf, Same} && Sound(adj, t) && Symmetric(adj) && ChildrenCover(t, node, vs)
    requires forall x :: x in vs ==> x < |adj|
    requires s <= vs && (node.Introduce? ==> node.v in vs)
    ensures ItemFor(t, adj, node, s).Some?
  {
    match node
    case Introduce(c, v) =>
      if v in s {
        assert s - {v} <= vs - {v};
        assert forall u :: u in s ==> u < |adj[v]|;
        if IsIndependent(adj, v, s) == Some(true) {
          var k :| 0 <= k < |t[c]| && t[c][k].mis == s - {v};
        }
      } else {
        assert s <= vs - {v};
        var k :| 0 <= k < |t[c]| && t[c][k].mis == s;
      }
    case Forget(c, v) =>
      assert s <= vs + {v} && s + {v} <= vs + {v};
      var k :| 0 <= k < |t[c]| && t[c][k].mis == s;
      var k' :| 0 <= k' < |t[c]| && t[c][k'].mis == s + {v};
    case Join(l, rt) =>
      var k :| 0 <= k < |t[l]| && t[l][k].mis == s;
      var k' :| 0 <= k' < |t[rt]| && t[rt][k'].mis == s;
      JoinSound(t, adj, l, rt, s);
  }

  /** Every item's set lies inside some bag of `ntd`. */
  predicate Within(ntd: Td, t: NormalTable) {
    forall b, k :: b in t && 0 <= k < |t[b]| ==>
      exists i :: 0 <= i < |ntd.bags| && t[b][k].mis <= ntd.bags[i].vertexSet
  }

  /** Filling the tables only stores subsets of the bags. */
  lemma {:induction false} BuildTablesWithin(tb: Tables, adj: Adjacency, ntd: Td, children: map<nat, seq<nat>>, order: seq<nat>)
    requires forall k :: 0 <= k < |order| ==> order[k] < |ntd.bags|
    requires Within(ntd, tb.items)
    ensures BuildTables(tb, adj, ntd, children, order).Some? ==>
      Within(ntd, BuildTables(tb, adj, ntd, children, order).value.items)
    decreases |order|
  {
    if order != [] {
      var b := order[0];
      var id := ntd.bags[b].id;
      var e := BagEntry(tb.items, adj, ntd, children, b);
      if e.Some? && id < |tb.constr| {
        var tb' := Tables(tb.items[id := e.value.0], tb.constr[id := tb.constr[id] + e.value.1]);
        forall c, k | c in tb'.items && 0 <= k < |tb'.items[c]|
          ensures exists i :: 0 <= i < |ntd.bags| && tb'.items[c][k].mis <= ntd.bags[i].vertexSet
        {
          if c == id {
            assert tb'.items[c][k].mis <= ntd.bags[b].vertexSet;
          } else {
            assert tb'.items[c][k] == tb.items[c][k];
          }
        }
        assert forall k :: 1 <= k < |order| ==> order[1..][k - 1] == order[k];
        BuildTablesWithin(tb', adj, ntd, children, order[1..]);
      }
    }
  }

  // --------------------------------------------------------- reconstruction

  /** `x` belongs to the set of some item of the table. */
  predicate FromTable(t: NormalTable, x: nat) {
    exists b, k :: b in t && 0 <= k < |t[b]| && x in t[b][k].mis
  }

  /** `reconstruct_mis`'s `rec`: add the item's set, then follow the pointer
      to the child's item (the larger result of the two for a join, the
      right one on a tie); `None` where the source panics or past `fuel`. */
  function Reconstruct(tb: Tables, children: map<nat, seq<nat>>, b: nat, i: nat, mis: set<nat>, fuel: nat)
    : (r: Option<set<nat>>)
    ensures r.Some? ==> b in tb.items && i < |tb.items[b]| && mis + tb.items[b][i].mis <= r.value
    ensures r.Some? ==> forall x :: x in r.value ==> x in mis || FromTable(tb.items, x)
    decreases fuel
  {
    if fuel == 0 || b !in tb.items || i >= |tb.items[b]| || b !in children then None
    else
      var mis' := mis + tb.items[b][i].mis;
      assert forall x :: x in mis' ==> x in mis || FromTable(tb.items, x) by {
        forall x | x in mis' && x !in mis ensures FromTable(tb.items, x) {
          assert x in tb.items[b][i].mis;
        }
      }
      var kids := children[b];
      if |kids| == 0 then Some(mis')
      else if |kids| > 2 || b >= |tb.constr| || i >= |tb.constr[b]| || tb.constr[b][i].left.None? then None
      else if |kids| == 1 then
        Reconstruct(tb, children, kids[0], tb.constr[b][i].left.value, mis', fuel - 1)
      else if tb.constr[b][i].right.None? then None
      else
        match Reconstruct(tb, children, kids[0], tb.constr[b][i].left.value, mis', fuel - 1)
        case None => None
        case Some(left) =>
          match Reconstruct(tb, children, kids[1], tb.constr[b][i].right.value, mis', fuel - 1)
          case None => None
          case Some(right) => Some(if |left| > |right| then left else right)
  }

  /** The bags in the order `PostOrderIter` returns them. */
  function PostOrder(ntd: Td): (order: seq<nat>)
    requires NeighborsInRange(ntd) && ntd.root.Some? && ntd.root.value < |ntd.bags|
    ensures forall k :: 0 <= k < |order| ==> order[k] < |ntd.bags|
    ensures Distinct(order) && order != [] && order[|order| - 1] == ntd.root.value
  {
    var order := TdIters.Drain(ntd, TdIters.PostOrderNew(ntd).value);
    TdIters.PostOrderRun(ntd, order);
    order
  }

  /** A vertex taken from a table that stays within the bags lies in a bag. */
  lemma FromTableInBag(ntd: Td, t: NormalTable, x: nat)
    requires Within(ntd, t) && FromTable(t, x)
    ensures exists i :: 0 <= i < |ntd.bags| && x in ntd.bags[i].vertexSet
  {
    var c, k :| c in t && 0 <= k < |t[c]| && x in t[c][k].mis;
    var i :| 0 <= i < |ntd.bags| && t[c][k].mis <= ntd.bags[i].vertexSet;
  }

  /** `find_mis`: fill the tables in post order, start the walk at the
      root's item of largest size, and return the set with its size. */
  function FindMis(adj: Adjacency, ntd: Td, children: map<nat, seq<nat>>, fuel: nat): (r: Option<(set<nat>, nat)>)
    requires NeighborsInRange(ntd)
    ensures r.Some? ==> ntd.root.Some? && r.value.1 == |r.value.0|
    ensures r.Some? ==> forall x :: x in r.value.0 ==> exists i :: 0 <= i < |ntd.bags| && x in ntd.bags[i].vertexSet
  {
    if ntd.root.None? || ntd.root.value >= |ntd.bags| then None
    else
      var root := ntd.root.value;
      var order := PostOrder(ntd);
      var empty := Tables(map[], seq(|ntd.bags|, _ => []));
      BuildTablesWithin(empty, adj, ntd, children, order);
      match BuildTables(empty, adj, ntd, children, order)
      case None => None
      case Some(tb) =>
        match NormalMaxRootSetIndex(tb.items, root)
        case None => None
        case Some(i) =>
          match Reconstruct(tb, children, root, i, {}, fuel)
          case None => None
          case Some(mis) =>
            assert forall x :: x in mis ==> exists i :: 0 <= i < |ntd.bags| && x in ntd.bags[i].vertexSet by {
              forall x | x in mis ensures exists i :: 0 <= i < |ntd.bags| && x in ntd.bags[i].vertexSet {
                FromTableInBag(ntd, tb.items, x);
              }
            }
            Some((mis, |mis|))
  }
}
