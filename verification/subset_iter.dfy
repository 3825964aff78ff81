/** `SubsetIter` and `SubBitSetIter`: enumerate every subset of a set by
    doubling a buffer of subsets, one element at a time. The set's iteration
    order, which the source takes from a hash set, is the `items` sequence. */
module SubsetIter {
  import opened Wrappers

  datatype Iter<T> = Iter(items: seq<T>, elementIndex: nat, subsets: seq<set<T>>, subsetIndex: nat)

  /** Reference definition: the subsets of `xs` in the order the doubling
      produces them; the second half is the first half with the last element added. */
  function PowerSeq<T>(xs: seq<T>): seq<set<T>>
    decreases |xs|
  {
    if xs == [] then [{}]
    else
      var p := PowerSeq(xs[..|xs| - 1]);
      p + WithElement(p, xs[|xs| - 1])
  }

  /** Every subset of the buffer with `x` inserted, in buffer order. */
  function WithElement<T>(subsets: seq<set<T>>, x: T): (r: seq<set<T>>)
    ensures |r| == |subsets|
    ensures forall i :: 0 <= i < |r| ==> r[i] == subsets[i] + {x}
  {
    seq(|subsets|, i requires 0 <= i < |subsets| => subsets[i] + {x})
  }

  function New<T>(items: seq<T>): (it: Iter<T>)
    ensures Inv(it) && it.subsets == PowerSeq(it.items[..it.elementIndex])
    ensures it.items == items && it.subsetIndex == 0
  {
    assert items[..0] == [];
    Iter(items, 0, [{}], 0)
  }

  predicate Inv<T>(it: Iter<T>) {
    it.elementIndex <= |it.items| && it.subsetIndex <= |it.subsets| && |it.subsets| > 0
  }

  /** Double the buffer with the next element. */
  function Grow<T>(it: Iter<T>): (r: Iter<T>)
    requires Inv(it) && it.elementIndex < |it.items|
    ensures Inv(r) && r.items == it.items && r.subsetIndex == it.subsetIndex
    ensures r.elementIndex == it.elementIndex + 1 && |r.subsets| == 2 * |it.subsets|
    ensures it.subsets <= r.subsets
  {
    it.(subsets := it.subsets + WithElement(it.subsets, it.items[it.elementIndex]),
        elementIndex := it.elementIndex + 1)
  }

  /** `next`: hand out the next buffered subset; when the buffer is used up,
      double it with the next element and try again; `None` once every
      element has been added. */
  function Next<T>(it: Iter<T>): (r: (Option<set<T>>, Iter<T>))
    requires Inv(it)
    ensures Inv(r.1) && r.1.items == it.items
    ensures r.0.None? ==> r.1 == it
    ensures r.0.Some? ==> r.1.subsetIndex >= 1 && r.0.value == r.1.subsets[r.1.subsetIndex - 1]
    ensures r.0.Some? ==> it.subsets <= r.1.subsets
    ensures r.0.Some? ==>
      r.1.elementIndex > it.elementIndex ||
      (r.1.elementIndex == it.elementIndex && r.1.subsets == it.subsets && r.1.subsetIndex == it.subsetIndex + 1)
    decreases |it.items| - it.elementIndex, |it.subsets| - it.subsetIndex
  {
    if it.subsetIndex < |it.subsets| then
      (Some(it.subsets[it.subsetIndex]), it.(subsetIndex := it.subsetIndex + 1))
    else if it.elementIndex >= |it.items| then
      (None, it)
    else
      Next(Grow(it))
  }

  /** Everything the iterator still yields, in order. */
  function Drain<T>(it: Iter<T>): seq<set<T>>
    requires Inv(it)
    decreases |it.items| - it.elementIndex, |it.subsets| - it.subsetIndex
  {
    var (x, next) := Next(it);
    match x
    case None => []
    case Some(s) => [s] + Drain(next)
  }

  /** The buffer after `k` elements is the power sequence of the first `k`
      items, and it is a prefix of the power sequence of any longer prefix. */
  lemma {:induction false} PowerSeqPrefix<T>(xs: seq<T>, k: nat)
    requires k <= |xs|
    ensures PowerSeq(xs[..k]) <= PowerSeq(xs)
    decreases |xs| - k
  {
    if k < |xs| {
      PowerSeqPrefix(xs, k + 1);
      assert xs[..k + 1][..k] == xs[..k];
    } else {
      assert xs[..k] == xs;
    }
  }

  lemma {:induction false} PowerSeqLength<T>(xs: seq<T>)
    ensures |PowerSeq(xs)| == Pow2(|xs|)
    decreases |xs|
  {
    if xs != [] {
      PowerSeqLength(xs[..|xs| - 1]);
    }
  }

  function Pow2(n: nat): (r: nat)
    ensures r >= 1
  {
    if n == 0 then 1 else 2 * Pow2(n - 1)
  }

  /** Whatever state the iterator is in, if its buffer is the power sequence
      of the items consumed so far, it yields the rest of the full power sequence. */
  lemma {:induction false} DrainRest<T>(it: Iter<T>)
    requires Inv(it) && it.subsets == PowerSeq(it.items[..it.elementIndex])
    ensures it.subsetIndex <= |PowerSeq(it.items)| && Drain(it) == PowerSeq(it.items)[it.subsetIndex..]
    decreases |it.items| - it.elementIndex, |it.subsets| - it.subsetIndex
  {
    PowerSeqLength(it.items[..it.elementIndex]);
    var full := PowerSeq(it.items);
    PowerSeqPrefix(it.items, it.elementIndex);
    var (x, next) := Next(it);
    if it.subsetIndex < |it.subsets| {
      DrainRest(next);
      assert full[it.subsetIndex..] == [full[it.subsetIndex]] + full[it.subsetIndex + 1..];
    } else if it.elementIndex >= |it.items| {
      assert it.items[..it.elementIndex] == it.items;
    } else {
      GrowDoubles(it);
      DrainRest(Grow(it));
    }
  }

  /** Growing the power sequence of the first `k` items gives that of the first `k + 1`. */
  lemma GrowDoubles<T>(it: Iter<T>)
    requires Inv(it) && it.elementIndex < |it.items|
    requires it.subsets == PowerSeq(it.items[..it.elementIndex])
    ensures Grow(it).subsets == PowerSeq(it.items[..it.elementIndex + 1])
  {
    var k := it.elementIndex;
    assert it.items[..k + 1][..k] == it.items[..k];
  }

  /** The iterator yields exactly the power sequence of its items, hence
      `2^n` subsets, the empty set first. */
  lemma DrainNew<T>(items: seq<T>)
    ensures Drain(New(items)) == PowerSeq(items)
    ensures |Drain(New(items))| == Pow2(|items|)
    ensures Drain(New(items))[0] == {}
  {
    DrainRest(New(items));
    PowerSeqLength(items);
    PowerSeqFirst(items);
  }

  lemma {:induction false} PowerSeqFirst<T>(xs: seq<T>)
    ensures |PowerSeq(xs)| > 0 && PowerSeq(xs)[0] == {}
    decreases |xs|
  {
    if xs != [] {
      PowerSeqFirst(xs[..|xs| - 1]);
    }
  }

  /** Every yielded set is a subset of the items. */
  lemma {:induction false} PowerSeqSubsets<T>(xs: seq<T>)
    ensures forall i :: 0 <= i < |PowerSeq(xs)| ==> PowerSeq(xs)[i] <= set x | x in xs
    decreases |xs|
  {
    if xs != [] {
      var ys := xs[..|xs| - 1];
      PowerSeqSubsets(ys);
      assert (set x | x in ys) <= (set x | x in xs);
    }
  }

  /** Every subset of the items is yielded. */
  lemma {:induction false} PowerSeqComplete<T>(xs: seq<T>, s: set<T>)
    requires s <= set x | x in xs
    ensures s in PowerSeq(xs)
    decreases |xs|
  {
    if xs == [] {
      assert s == {};
    } else {
      var ys := xs[..|xs| - 1];
      var last := xs[|xs| - 1];
      var p := PowerSeq(ys);
      assert forall y :: y in xs ==> y in ys || y == last by {
        assert xs == ys + [last];
      }
      if last in s {
        var t := s - {last};
        PowerSeqComplete(ys, t);
        var i :| 0 <= i < |p| && p[i] == t;
        if last in ys {
          PowerSeqComplete(ys, s);
          assert s in PowerSeq(xs);
        } else {
          assert WithElement(p, last)[i] == s;
          assert PowerSeq(xs)[|p| + i] == s;
        }
      } else {
        PowerSeqComplete(ys, s);
        var i :| 0 <= i < |p| && p[i] == s;
        assert PowerSeq(xs)[i] == s;
      }
    }
  }

  /** For distinct items no subset is yielded twice. */
  lemma {:induction false} PowerSeqDistinct<T>(xs: seq<T>)
    requires forall i, j :: 0 <= i < j < |xs| ==> xs[i] != xs[j]
    ensures forall i, j :: 0 <= i < j < |PowerSeq(xs)| ==> PowerSeq(xs)[i] != PowerSeq(xs)[j]
    decreases |xs|
  {
    if xs != [] {
      var ys := xs[..|xs| - 1];
      var last := xs[|xs| - 1];
      var p := PowerSeq(ys);
      PowerSeqDistinct(ys);
      PowerSeqSubsets(ys);
      assert last !in set y | y in ys;
      var q := PowerSeq(xs);
      forall i, j | 0 <= i < j < |q|
        ensures q[i] != q[j]
      {
        if j < |p| {
        } else if i >= |p| {
          assert q[i] == p[i - |p|] + {last} && q[j] == p[j - |p|] + {last};
          assert q[i] - {last} == p[i - |p|];
          assert q[j] - {last} == p[j - |p|];
        } else {
          assert last !in q[i] && last in q[j];
        }
      }
    }
  }

  /** `SubBitSetIter` is the same iterator over `usize` elements with bit sets,
      i.e. sets of naturals, as the subset type. */
  type BitSet = set<nat>

  function NewBitSetIter(items: seq<nat>): (it: Iter<nat>)
    ensures Inv(it) && Drain(it) == PowerSeq(items)
  {
    DrainNew(items);
    New(items)
  }
}
