/** Enumerating a finite set of naturals as a sequence. The source iterates
    hash sets, whose order is unspecified; the model fixes ascending order. */
module SetSeqs {

  /** `m` is the least element of `s`. */
  predicate IsMin(s: set<nat>, m: nat) {
    m in s && forall x :: x in s ==> m <= x
  }

  lemma {:induction false} MinExists(s: set<nat>)
    requires s != {}
    ensures exists m :: IsMin(s, m)
    decreases |s|
  {
    var y :| y in s;
    if s == {y} {
      assert IsMin(s, y);
    } else {
      var rest := s - {y};
      MinExists(rest);
      var m :| IsMin(rest, m);
      assert forall x :: x in s ==> x in rest || x == y;
      if y < m {
        assert IsMin(s, y);
      } else {
        assert IsMin(s, m);
      }
    }
  }

  function MinOf(s: set<nat>): (m: nat)
    requires s != {}
    ensures m in s && forall x :: x in s ==> m <= x
  {
    MinExists(s);
    var m :| IsMin(s, m);
    m
  }

  predicate Distinct<T(==)>(xs: seq<T>) {
    forall i, j :: 0 <= i < j < |xs| ==> xs[i] != xs[j]
  }

  /** The elements of `s` in ascending order. */
  function Elems(s: set<nat>): (xs: seq<nat>)
    ensures |xs| == |s|
    ensures forall x :: x in xs <==> x in s
    ensures Distinct(xs)
    decreases |s|
  {
    if s == {} then []
    else
      var m := MinOf(s);
      var rest := Elems(s - {m});
      assert forall i :: 0 <= i < |rest| ==> rest[i] in s - {m};
      [m] + rest
  }

  /** The set of a sequence's elements. */
  function Set<T(!new)>(xs: seq<T>): (s: set<T>)
    ensures forall x :: x in s <==> x in xs
  {
    set x | x in xs
  }

  /** A distinct sequence has as many elements as its set. */
  lemma {:induction false} DistinctCard<T(!new)>(xs: seq<T>)
    requires Distinct(xs)
    ensures |Set(xs)| == |xs|
  {
    if xs != [] {
      var ys := xs[1..];
      DistinctCard(ys);
      assert Set(xs) == Set(ys) + {xs[0]};
      assert xs[0] !in Set(ys);
    }
  }

  /** The naturals below `n`. */
  function Below(n: nat): (s: set<nat>)
    ensures |s| == n
    ensures forall x: nat :: x in s <==> x < n
  {
    if n == 0 then {} else
      var s := Below(n - 1) + {n - 1};
      assert n - 1 !in Below(n - 1);
      s
  }

  /** A distinct sequence of naturals below `n` has at most `n` entries. */
  lemma DistinctBelow(xs: seq<nat>, n: nat)
    requires Distinct(xs) && forall k :: 0 <= k < |xs| ==> xs[k] < n
    ensures |xs| <= n
  {
    DistinctCard(xs);
    SubsetCard(Set(xs), Below(n));
  }

  lemma {:induction false} SubsetCard(a: set<nat>, b: set<nat>)
    requires a <= b
    ensures |a| <= |b|
    decreases |a|
  {
    if a != {} {
      var x :| x in a;
      SubsetCard(a - {x}, b - {x});
    }
  }
}
