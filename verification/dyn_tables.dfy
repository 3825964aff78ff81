/** The two dynamic-programming tables of the MIS search. Both map a bag id
    and a subset of the bag to a `MisSize`, and number the subsets of each
    bag in insertion order. Lookups that panic in the source (an indexed
    hash map without the key, an `unwrap` of `None`) return `None` here. */
module DynTables {
  import opened Wrappers
  import opened MisSizes

  /** `DynTableValueItem`: a subset of a bag and its best independent-set size. */
  datatype Item = Item(mis: set<nat>, size: MisSize)

  /** `DynTableValue`: the items of one bag, in insertion order. */
  type Entry = seq<Item>

  /** `NormalDynTable`: bag id to its entry. */
  type NormalTable = map<nat, Entry>

  /** `DynTableValue::add`. */
  function AddItem(e: Entry, item: Item): (r: Entry)
    ensures |r| == |e| + 1 && r[..|e|] == e && r[|e|] == item
  {
    e + [item]
  }

  /** `find_child_size`: the first index whose subset equals `s`, with its size. */
  function FindChildSize(e: Entry, s: set<nat>): (r: Option<(nat, MisSize)>)
    ensures r.None? <==> forall i :: 0 <= i < |e| ==> e[i].mis != s
    ensures r.Some? ==> r.value.0 < |e| && e[r.value.0] == Item(s, r.value.1)
    ensures r.Some? ==> forall j :: 0 <= j < r.value.0 ==> e[j].mis != s
  {
    if e == [] then None
    else if e[0].mis == s then Some((0, e[0].size))
    else
      match FindChildSize(e[1..], s)
      case None => None
      case Some((i, size)) => Some((i + 1, size))
  }

  function NormalGet(t: NormalTable, bag: nat, s: set<nat>): (r: Option<(nat, MisSize)>)
    ensures r.Some? ==> bag in t && r.value.0 < |t[bag]| && t[bag][r.value.0] == Item(s, r.value.1)
    ensures bag in t && (exists i :: 0 <= i < |t[bag]| && t[bag][i].mis == s) ==> r.Some?
  {
    if bag in t then FindChildSize(t[bag], s) else None
  }

  function NormalGetByIndex(t: NormalTable, bag: nat, i: nat): (r: Option<(set<nat>, MisSize)>)
    ensures r.Some? <==> bag in t && i < |t[bag]|
    ensures r.Some? ==> t[bag][i] == Item(r.value.0, r.value.1)
  {
    if bag in t && i < |t[bag]| then Some((t[bag][i].mis, t[bag][i].size)) else None
  }

  /** `put`: create an empty entry for an unseen bag, then append. */
  function NormalPut(t: NormalTable, bag: nat, s: set<nat>, size: MisSize): (r: NormalTable)
    ensures r.Keys == t.Keys + {bag}
    ensures r[bag] == (if bag in t then t[bag] else []) + [Item(s, size)]
    ensures forall b :: b in t && b != bag ==> r[b] == t[b]
  {
    var e := if bag in t then t[bag] else [];
    t[bag := AddItem(e, Item(s, size))]
  }

  /** `Iterator::max_by` on sizes: an index of maximal size, the last one on ties. */
  function MaxIndex(e: Entry): (i: nat)
    requires |e| > 0
    ensures i < |e|
    ensures forall j :: 0 <= j < |e| ==> Le(e[j].size, e[i].size)
    ensures forall j :: i < j < |e| ==> Lt(e[j].size, e[i].size)
  {
    if |e| == 1 then 0
    else
      var i := MaxIndex(e[..|e| - 1]);
      assert forall j :: 0 <= j < |e| - 1 ==> e[..|e| - 1][j] == e[j];
      if Le(e[i].size, e[|e| - 1].size) then
        MaxIsLast(e, i);
        |e| - 1
      else
        CmpFlip(e[i].size, e[|e| - 1].size);
        i
  }

  lemma MaxIsLast(e: Entry, i: nat)
    requires |e| > 1 && i < |e| - 1 && Le(e[i].size, e[|e| - 1].size)
    requires forall j :: 0 <= j < |e| - 1 ==> Le(e[j].size, e[i].size)
    ensures forall j :: 0 <= j < |e| ==> Le(e[j].size, e[|e| - 1].size)
  {
    forall j | 0 <= j < |e|
      ensures Le(e[j].size, e[|e| - 1].size)
    {
      if j < |e| - 1 {
        LeTransitive(e[j].size, e[i].size, e[|e| - 1].size);
      }
    }
  }

  /** `get_max_root_set_index`; the source unwraps, so an unknown or empty bag is `None`. */
  function NormalMaxRootSetIndex(t: NormalTable, root: nat): (r: Option<nat>)
    ensures r.Some? <==> root in t && |t[root]| > 0
    ensures r.Some? ==> r.value < |t[root]|
    ensures r.Some? ==> forall j :: 0 <= j < |t[root]| ==> Le(t[root][j].size, t[root][r.value].size)
  {
    if root in t && |t[root]| > 0 then Some(MaxIndex(t[root])) else None
  }

  /** `add_to_mis`: insert the members of the indexed subset. */
  function NormalAddToMis(t: NormalTable, bag: nat, i: nat, mis: set<nat>): (r: Option<set<nat>>)
    ensures r.Some? <==> bag in t && i < |t[bag]|
    ensures r.Some? ==> mis <= r.value && r.value - mis <= t[bag][i].mis && t[bag][i].mis <= r.value
  {
    if bag in t && i < |t[bag]| then Some(mis + t[bag][i].mis) else None
  }

  /** Putting a subset the bag does not hold yet and looking it up again
      gives back the size, at the next index. */
  lemma NormalPutGetFresh(t: NormalTable, bag: nat, s: set<nat>, size: MisSize)
    requires bag in t ==> forall i :: 0 <= i < |t[bag]| ==> t[bag][i].mis != s
    ensures var n := if bag in t then |t[bag]| else 0;
      NormalGet(NormalPut(t, bag, s, size), bag, s) == Some((n, size))
  {
    var r: NormalTable := NormalPut(t, bag, s, size);
    var n := if bag in t then |t[bag]| else 0;
    var e: Entry := r[bag];
    assert e[n].mis == s;
  }

  /** A second put of the same subset leaves lookups answering with the first. */
  lemma NormalPutGetExisting(t: NormalTable, bag: nat, s: set<nat>, size: MisSize)
    requires NormalGet(t, bag, s).Some?
    ensures NormalGet(NormalPut(t, bag, s, size), bag, s) == NormalGet(t, bag, s)
  {
    var r := NormalPut(t, bag, s, size);
    var i := NormalGet(t, bag, s).value.0;
    assert r[bag][i] == t[bag][i];
    FirstMatchUnique(r[bag], s, i, NormalGet(r, bag, s).value.0);
  }

  lemma FirstMatchUnique(e: Entry, s: set<nat>, i: nat, j: nat)
    requires i < |e| && j < |e| && e[i].mis == s && e[j].mis == s
    requires forall k :: 0 <= k < i ==> e[k].mis != s
    requires forall k :: 0 <= k < j ==> e[k].mis != s
    ensures i == j
  {
  }

  /** `get_by_index` at the index a put used returns what was put. */
  lemma NormalPutGetByIndex(t: NormalTable, bag: nat, s: set<nat>, size: MisSize)
    ensures var n := if bag in t then |t[bag]| else 0;
      NormalGetByIndex(NormalPut(t, bag, s, size), bag, n) == Some((s, size))
  {
  }

  /** `FastDynTable`: sizes and subsets keyed by (bag, index), the index of a
      subset keyed by (bag, subset), and the number of subsets per bag. */
  datatype FastTable = FastTable(
    sizes: map<(nat, nat), MisSize>,
    setIndices: map<(nat, set<nat>), nat>,
    setIndicesBack: map<(nat, nat), set<nat>>,
    setCount: map<nat, nat>)

  /** `FastDynTable::new`; the capacity hint has no observable effect. */
  function FastNew(subsetCount: nat): (t: FastTable)
    ensures FastWf(t) && t.setCount == map[]
  {
    FastTable(map[], map[], map[], map[])
  }

  function Count(t: FastTable, bag: nat): nat {
    if bag in t.setCount then t.setCount[bag] else 0
  }

  /** Every index below a bag's count is stored, and each subset's recorded
      index points back at that subset. */
  ghost predicate FastWf(t: FastTable) {
    (forall b, i :: b in t.setCount && i < t.setCount[b] ==> (b, i) in t.sizes && (b, i) in t.setIndicesBack) &&
    (forall b, s :: (b, s) in t.setIndices ==>
      t.setIndices[(b, s)] < Count(t, b) && (b, t.setIndices[(b, s)]) in t.setIndicesBack &&
      t.setIndicesBack[(b, t.setIndices[(b, s)])] == s) &&
    (forall b, i :: (b, i) in t.setIndicesBack ==> i < Count(t, b)) &&
    (forall b, i :: (b, i) in t.sizes ==> i < Count(t, b))
  }

  /** `put`: the subset gets the bag's next index, even if it was put before. */
  function FastPut(t: FastTable, bag: nat, s: set<nat>, size: MisSize): (r: FastTable)
    ensures Count(r, bag) == Count(t, bag) + 1
    ensures forall b :: b != bag ==> Count(r, b) == Count(t, b)
    ensures r.sizes == t.sizes[(bag, Count(t, bag)) := size]
    ensures r.setIndicesBack == t.setIndicesBack[(bag, Count(t, bag)) := s]
    ensures r.setIndices == t.setIndices[(bag, s) := Count(t, bag)]
  {
    var c := Count(t, bag);
    FastTable(t.sizes[(bag, c) := size], t.setIndices[(bag, s) := c],
              t.setIndicesBack[(bag, c) := s], t.setCount[bag := c + 1])
  }

  function FastGet(t: FastTable, bag: nat, s: set<nat>): (r: Option<(nat, MisSize)>)
    ensures r.Some? <==> (bag, s) in t.setIndices && (bag, t.setIndices[(bag, s)]) in t.sizes
    ensures r.Some? ==> r.value == (t.setIndices[(bag, s)], t.sizes[(bag, t.setIndices[(bag, s)])])
  {
    if (bag, s) in t.setIndices && (bag, t.setIndices[(bag, s)]) in t.sizes then
      var i := t.setIndices[(bag, s)];
      Some((i, t.sizes[(bag, i)]))
    else None
  }

  function FastGetByIndex(t: FastTable, bag: nat, i: nat): (r: Option<(set<nat>, MisSize)>)
    ensures r.Some? <==> (bag, i) in t.setIndicesBack && (bag, i) in t.sizes
    ensures r.Some? ==> r.value == (t.setIndicesBack[(bag, i)], t.sizes[(bag, i)])
  {
    if (bag, i) in t.setIndicesBack && (bag, i) in t.sizes then
      Some((t.setIndicesBack[(bag, i)], t.sizes[(bag, i)]))
    else None
  }

  /** The fold of `get_max_root_set_index` over the indices `0..n`, starting
      from `(0, Valid(0))` and moving only to a strictly larger size. */
  function FoldMax(t: FastTable, root: nat, n: nat): (r: Option<(nat, MisSize)>)
    ensures r.Some? <==> forall j :: 0 <= j < n ==> (root, j) in t.sizes
    ensures r.Some? ==> Le(Valid(0), r.value.1)
    ensures r.Some? ==> forall j :: 0 <= j < n ==> Le(t.sizes[(root, j)], r.value.1)
    ensures r.Some? && r.value.1 != Valid(0) ==>
      r.value.0 < n && t.sizes[(root, r.value.0)] == r.value.1 &&
      forall j :: 0 <= j < r.value.0 ==> Lt(t.sizes[(root, j)], r.value.1)
    ensures r.Some? && r.value.1 == Valid(0) ==> r.value.0 == 0
  {
    if n == 0 then Some((0, Valid(0)))
    else
      match FoldMax(t, root, n - 1)
      case None => None
      case Some(acc) =>
        if (root, n - 1) !in t.sizes then None
        else
          var size := t.sizes[(root, n - 1)];
          if Lt(acc.1, size) then
            FoldMaxStep(t, root, n, acc);
            Some((n - 1, size))
          else
            CmpFlip(acc.1, size);
            Some(acc)
  }

  lemma FoldMaxStep(t: FastTable, root: nat, n: nat, acc: (nat, MisSize))
    requires n > 0 && (root, n - 1) in t.sizes && Lt(acc.1, t.sizes[(root, n - 1)])
    requires forall j :: 0 <= j < n - 1 ==> (root, j) in t.sizes && Le(t.sizes[(root, j)], acc.1)
    ensures forall j :: 0 <= j < n ==> Le(t.sizes[(root, j)], t.sizes[(root, n - 1)])
    ensures forall j :: 0 <= j < n - 1 ==> Lt(t.sizes[(root, j)], t.sizes[(root, n - 1)])
  {
  }

  /** `get_max_root_set_index`: the first index of a strictly largest size,
      `0` if no size exceeds `Valid(0)`; an unknown bag is `None`. */
  function FastMaxRootSetIndex(t: FastTable, root: nat): (r: Option<nat>)
    ensures root !in t.setCount ==> r.None?
    ensures FastWf(t) && root in t.setCount ==> r.Some?
    ensures r.Some? ==> forall j :: 0 <= j < t.setCount[root] ==> (root, j) in t.sizes
    ensures r.Some? && (exists j :: 0 <= j < t.setCount[root] && Lt(Valid(0), t.sizes[(root, j)])) ==>
      r.value < t.setCount[root] &&
      (forall j :: 0 <= j < t.setCount[root] ==> Le(t.sizes[(root, j)], t.sizes[(root, r.value)])) &&
      (forall j :: 0 <= j < r.value ==> Lt(t.sizes[(root, j)], t.sizes[(root, r.value)]))
    ensures r.Some? && (forall j :: 0 <= j < t.setCount[root] ==> Le(t.sizes[(root, j)], Valid(0))) ==> r.value == 0
  {
    if root !in t.setCount then None
    else
      match FoldMax(t, root, t.setCount[root])
      case None => None
      case Some(acc) => Some(acc.0)
  }

  function FastAddToMis(t: FastTable, bag: nat, i: nat, mis: set<nat>): (r: Option<set<nat>>)
    ensures r.Some? <==> (bag, i) in t.setIndicesBack
    ensures r.Some? ==> r.value == mis + t.setIndicesBack[(bag, i)]
  {
    if (bag, i) in t.setIndicesBack then Some(mis + t.setIndicesBack[(bag, i)]) else None
  }

  lemma FastPutKeepsWf(t: FastTable, bag: nat, s: set<nat>, size: MisSize)
    requires FastWf(t)
    ensures FastWf(FastPut(t, bag, s, size))
  {
    var r := FastPut(t, bag, s, size);
    var c := Count(t, bag);
    forall b, s' | (b, s') in r.setIndices
      ensures r.setIndices[(b, s')] < Count(r, b) && (b, r.setIndices[(b, s')]) in r.setIndicesBack &&
        r.setIndicesBack[(b, r.setIndices[(b, s')])] == s'
    {
      if (b, s') != (bag, s) {
        assert (b, t.setIndices[(b, s')]) != (bag, c);
      }
    }
  }

  /** Looking a subset up right after putting it gives the new index and
      size: a re-put rebinds the subset to its newer index. */
  lemma FastPutGet(t: FastTable, bag: nat, s: set<nat>, size: MisSize)
    ensures FastGet(FastPut(t, bag, s, size), bag, s) == Some((Count(t, bag), size))
    ensures FastGetByIndex(FastPut(t, bag, s, size), bag, Count(t, bag)) == Some((s, size))
  {
  }

  /** A put leaves every earlier index of every bag as it was. */
  lemma FastPutKeepsOlder(t: FastTable, bag: nat, s: set<nat>, size: MisSize, b: nat, i: nat)
    requires FastWf(t) && i < Count(t, b)
    ensures FastGetByIndex(FastPut(t, bag, s, size), b, i) == FastGetByIndex(t, b, i)
  {
  }

  /** The two tables agree when each bag has as many subsets in both and the
      same subset and size at every index. */
  ghost predicate Agree(n: NormalTable, f: FastTable) {
    (forall b :: b in n <==> b in f.setCount) &&
    (forall b :: b in n ==> |n[b]| == f.setCount[b]) &&
    (forall b, i :: b in n && 0 <= i < |n[b]| ==>
      (b, i) in f.sizes && (b, i) in f.setIndicesBack &&
      f.sizes[(b, i)] == n[b][i].size && f.setIndicesBack[(b, i)] == n[b][i].mis)
  }

  /** The same put on agreeing tables keeps them agreeing. */
  lemma PutKeepsAgree(n: NormalTable, f: FastTable, bag: nat, s: set<nat>, size: MisSize)
    requires Agree(n, f)
    ensures Agree(NormalPut(n, bag, s, size), FastPut(f, bag, s, size))
  {
    var n': NormalTable := NormalPut(n, bag, s, size);
    var f' := FastPut(f, bag, s, size);
    forall b: nat, i: nat | b in n' && i < |n'[b]|
      ensures (b, i) in f'.sizes && (b, i) in f'.setIndicesBack &&
        f'.sizes[(b, i)] == n'[b][i].size && f'.setIndicesBack[(b, i)] == n'[b][i].mis
    {
      if b == bag && i == Count(f, bag) {
      } else if b == bag {
        assert n'[b][i] == n[b][i];
      }
    }
  }

  /** Agreeing tables answer every by-index lookup alike. */
  lemma AgreeGetByIndex(n: NormalTable, f: FastTable, bag: nat, i: nat)
    requires Agree(n, f) && FastWf(f)
    ensures NormalGetByIndex(n, bag, i) == FastGetByIndex(f, bag, i)
  {
    if (bag, i) in f.setIndicesBack {
      assert bag in f.setCount;
    }
  }
}
