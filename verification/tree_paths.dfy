/** The root paths the approximate tree decomposition builder precomputes:
    for every vertex, the vertices on the spanning-tree path from it up to
    the root, built by climbing from the vertex to the first vertex whose
    path is known and writing the paths back down the climb. */
module TreePaths {
  import opened Wrappers

  datatype PathState = PathState(onTreePath: seq<seq<nat>>, calculated: seq<bool>)

  predicate Sized(st: PathState, n: nat) {
    |st.onTreePath| == n && |st.calculated| == n
  }

  /** The spanning tree's `discovered_by(v).src()` names a vertex. */
  predicate ParentsIn(parent: seq<nat>) {
    forall v :: 0 <= v < |parent| ==> parent[v] < |parent|
  }

  /** A climb from `v`: each vertex is followed by its parent, only the last
      one has a known path. */
  ghost predicate Stack(known: seq<bool>, parent: seq<nat>, v: nat, s: seq<nat>) {
    |s| >= 1 && s[0] == v && |known| == |parent| &&
    (forall i :: 0 <= i < |s| ==> s[i] < |parent|) &&
    known[s[|s| - 1]] &&
    forall i :: 0 <= i < |s| - 1 ==> s[i + 1] == parent[s[i]] && !known[s[i]]
  }

  /** The climbing loop of `tree_path`; `None` once `fuel` steps have not
      reached a vertex with a known path. */
  function Climb(known: seq<bool>, parent: seq<nat>, v: nat, fuel: nat): (r: Option<seq<nat>>)
    requires |known| == |parent| && ParentsIn(parent) && v < |parent|
    ensures r.Some? ==> Stack(known, parent, v, r.value)
    decreases fuel
  {
    if known[v] then Some([v])
    else if fuel == 0 then None
    else match Climb(known, parent, parent[v], fuel - 1)
      case None => None
      case Some(s) => Some([v] + s)
  }

  /** Rust's `lo..=hi`, ascending, empty when `lo > hi`. */
  function InclusiveRange(lo: nat, hi: nat): (r: seq<nat>)
    ensures |r| == if lo <= hi then hi - lo + 1 else 0
    ensures forall k :: 0 <= k < |r| ==> r[k] == lo + k
  {
    seq(if lo <= hi then hi - lo + 1 else 0, k => lo + k)
  }

  /** `(0..=j).rev()`: `j` down to `0`. */
  function Descending(j: nat): (r: seq<nat>)
    ensures |r| == j + 1
    ensures forall k :: 0 <= k < |r| ==> r[k] + k == j
  {
    seq(j + 1, k requires 0 <= k <= j => j - k)
  }

  /** Known paths stay known. */
  ghost predicate Keeps(st: PathState, st': PathState) {
    |st'.calculated| == |st.calculated| &&
    forall u :: 0 <= u < |st.calculated| && st.calculated[u] ==> st'.calculated[u]
  }

  /** A path is stored only for a vertex marked known. */
  predicate Blank(st: PathState) {
    |st.onTreePath| == |st.calculated| &&
    forall v :: 0 <= v < |st.calculated| && !st.calculated[v] ==> st.onTreePath[v] == []
  }

  /** One write of `tree_path`: the vertex at stack position `i` gets its
      parent followed by the parent's path. */
  function WriteAt(st: PathState, s: seq<nat>, i: nat): (r: PathState)
    requires i + 1 < |s| && forall k :: 0 <= k < |s| ==> s[k] < |st.onTreePath| && s[k] < |st.calculated|
    ensures |r.onTreePath| == |st.onTreePath| && |r.calculated| == |st.calculated|
    ensures r.onTreePath[s[i]] == [s[i + 1]] + st.onTreePath[s[i + 1]] && r.calculated[s[i]]
    ensures forall u :: 0 <= u < |st.onTreePath| && u != s[i] ==> r.onTreePath[u] == st.onTreePath[u]
    ensures forall u :: 0 <= u < |st.calculated| && u != s[i] ==> r.calculated[u] == st.calculated[u]
  {
    PathState(st.onTreePath[s[i] := [s[i + 1]] + st.onTreePath[s[i + 1]]], st.calculated[s[i] := true])
  }

  /** The writes for the stack positions in `order`, first to last. */
  function WriteAll(st: PathState, s: seq<nat>, order: seq<nat>): (r: PathState)
    requires forall k :: 0 <= k < |s| ==> s[k] < |st.onTreePath| && s[k] < |st.calculated|
    requires forall k :: 0 <= k < |order| ==> order[k] + 1 < |s|
    ensures |r.onTreePath| == |st.onTreePath| && |r.calculated| == |st.calculated|
    decreases |order|
  {
    if order == [] then st
    else WriteAll(WriteAt(st, s, order[0]), s, order[1..])
  }

  /** The writes keep known paths known and mark every position written;
      a vertex gets a path only as it is marked. */
  lemma {:induction false} WriteAllMarks(st: PathState, s: seq<nat>, order: seq<nat>)
    requires forall k :: 0 <= k < |s| ==> s[k] < |st.onTreePath| && s[k] < |st.calculated|
    requires forall k :: 0 <= k < |order| ==> order[k] + 1 < |s|
    ensures var r := WriteAll(st, s, order);
            Keeps(st, r) && (Blank(st) ==> Blank(r)) &&
            forall k :: 0 <= k < |order| ==> r.calculated[s[order[k]]]
    decreases |order|
  {
    if order != [] {
      var w := WriteAt(st, s, order[0]);
      WriteAllMarks(w, s, order[1..]);
      var r := WriteAll(st, s, order);
      assert r == WriteAll(w, s, order[1..]);
      forall k | 0 <= k < |order|
        ensures r.calculated[s[order[k]]]
      {
        if k > 0 {
          assert order[k] == order[1..][k - 1];
        }
      }
    }
  }

  /** `tree_path` as written: the write-back range `stack.len()-2..=0` is
      empty unless the stack holds exactly two vertices, so at most `v`'s
      own path is written. */
  function TreePathAsWritten(st: PathState, parent: seq<nat>, v: nat, fuel: nat): (r: Option<PathState>)
    requires Sized(st, |parent|) && ParentsIn(parent) && v < |parent|
    ensures r.Some? ==> Sized(r.value, |parent|) && Keeps(st, r.value) && (Blank(st) ==> Blank(r.value))
    ensures r.Some? ==> forall u :: 0 <= u < |parent| && u != v ==>
      r.value.onTreePath[u] == st.onTreePath[u] && r.value.calculated[u] == st.calculated[u]
  {
    match Climb(st.calculated, parent, v, fuel)
    case None => None
    case Some(s) =>
      if |s| < 2 then Some(st)
      else
        var order := InclusiveRange(|s| - 2, 0);
        WriteAllMarks(st, s, order);
        if |s| == 2 then
          assert order == [0] && order[1..] == [];
          Some(WriteAll(st, s, order))
        else
          assert order == [];
          Some(WriteAll(st, s, order))
  }

  /** `tree_path` with the write-back running from the top of the climb
      down to `v`, `(0..=stack.len()-2).rev()`: afterwards `v`'s path is
      known. */
  function TreePath(st: PathState, parent: seq<nat>, v: nat, fuel: nat): (r: Option<PathState>)
    requires Sized(st, |parent|) && ParentsIn(parent) && v < |parent|
    ensures r.Some? ==> Sized(r.value, |parent|) && Keeps(st, r.value) && (Blank(st) ==> Blank(r.value))
    ensures r.Some? ==> r.value.calculated[v]
  {
    match Climb(st.calculated, parent, v, fuel)
    case None => None
    case Some(s) =>
      if |s| < 2 then Some(st)
      else
        var order := Descending(|s| - 2);
        WriteAllMarks(st, s, order);
        assert s[order[|s| - 2]] == v;
        Some(WriteAll(st, s, order))
  }

  /** The loop of `initialize_tree_paths` from vertex `v` on; with the
      corrected `tree_path` every vertex from `v` on ends up known. */
  function InitFrom(st: PathState, parent: seq<nat>, v: nat, fuel: nat, asWritten: bool): (r: Option<PathState>)
    requires Sized(st, |parent|) && ParentsIn(parent)
    ensures r.Some? ==> Sized(r.value, |parent|) && Keeps(st, r.value) && (Blank(st) ==> Blank(r.value))
    ensures r.Some? && !asWritten ==> forall u :: v <= u < |parent| ==> r.value.calculated[u]
    decreases |parent| - v
  {
    if v >= |parent| then Some(st)
    else
      var next := if asWritten then TreePathAsWritten(st, parent, v, fuel) else TreePath(st, parent, v, fuel);
      match next
      case None => None
      case Some(st') => InitFrom(st', parent, v + 1, fuel, asWritten)
  }

  /** The state `TDBuilder::new` starts from: no paths, only the root's
      (empty) path known. */
  function Start(n: nat, root: nat): (st: PathState)
    requires root < n
    ensures Sized(st, n) && st.calculated[root]
    ensures forall v :: 0 <= v < n ==> st.onTreePath[v] == [] && (st.calculated[v] <==> v == root)
  {
    PathState(seq(n, _ => []), seq(n, _ => false)[root := true])
  }

  /** `initialize_tree_paths` as written: the root stays known, and only
      known vertices have a path. */
  function InitPathsAsWritten(root: nat, parent: seq<nat>, fuel: nat): (r: Option<PathState>)
    requires ParentsIn(parent) && root < |parent|
    ensures r.Some? ==> Sized(r.value, |parent|) && Blank(r.value) && r.value.calculated[root]
  {
    InitFrom(Start(|parent|, root), parent, 0, fuel, true)
  }

  /** `initialize_tree_paths` with the corrected write-back: every vertex
      ends up known. */
  function InitPaths(root: nat, parent: seq<nat>, fuel: nat): (r: Option<PathState>)
    requires ParentsIn(parent) && root < |parent|
    ensures r.Some? ==> Sized(r.value, |parent|) && forall v :: 0 <= v < |parent| ==> r.value.calculated[v]
  {
    InitFrom(Start(|parent|, root), parent, 0, fuel, false)
  }

  // ---------------------------------------------------------------------
  // Paths to the root

  /** A BFS spanning tree: the root has level 0 and every other vertex is
      one level below its parent. */
  predicate Rooted(parent: seq<nat>, level: seq<nat>, root: nat) {
    |level| == |parent| && root < |parent| && ParentsIn(parent) && level[root] == 0 &&
    forall v :: 0 <= v < |parent| && v != root ==> level[v] == level[parent[v]] + 1
  }

  /** The vertices above `v` in the tree, nearest first. */
  ghost function RootPath(parent: seq<nat>, level: seq<nat>, root: nat, v: nat): seq<nat>
    requires Rooted(parent, level, root) && v < |parent|
    decreases level[v]
  {
    if v == root then [] else [parent[v]] + RootPath(parent, level, root, parent[v])
  }

  /** Each entry of a root path is the parent of the one before it, and
      the path ends at the root. */
  lemma {:induction false} RootPathShape(parent: seq<nat>, level: seq<nat>, root: nat, v: nat)
    requires Rooted(parent, level, root) && v < |parent|
    ensures var p := RootPath(parent, level, root, v);
            |p| == level[v] &&
            (forall k :: 0 <= k < |p| ==> p[k] < |parent|) &&
            (p != [] ==> p[0] == parent[v] && p[|p| - 1] == root) &&
            forall k :: 0 <= k < |p| - 1 ==> p[k + 1] == parent[p[k]]
    decreases level[v]
  {
    if v != root {
      RootPathShape(parent, level, root, parent[v]);
      var q := RootPath(parent, level, root, parent[v]);
      var p := RootPath(parent, level, root, v);
      assert p == [parent[v]] + q;
      forall k | 0 <= k < |p| - 1
        ensures p[k + 1] == parent[p[k]]
      {
        if k > 0 {
          assert p[k] == q[k - 1] && p[k + 1] == q[k];
        }
      }
    }
  }

  /** Every known path is the root path. */
  ghost predicate Good(st: PathState, parent: seq<nat>, level: seq<nat>, root: nat)
    requires Rooted(parent, level, root)
  {
    Sized(st, |parent|) && st.calculated[root] &&
    forall v :: 0 <= v < |parent| && st.calculated[v] ==> st.onTreePath[v] == RootPath(parent, level, root, v)
  }

  lemma WriteAtGood(st: PathState, s: seq<nat>, j: nat, parent: seq<nat>, level: seq<nat>, root: nat)
    requires Rooted(parent, level, root) && Good(st, parent, level, root)
    requires j + 1 < |s| && (forall k :: 0 <= k < |s| ==> s[k] < |parent|)
    requires st.calculated[s[j + 1]] && s[j + 1] == parent[s[j]] && s[j] != root
    ensures Good(WriteAt(st, s, j), parent, level, root) && Keeps(st, WriteAt(st, s, j))
    ensures WriteAt(st, s, j).calculated[s[j]]
  {
  }

  /** The corrected write-back from position `j` down to `0`: all the climb
      gets its root paths, provided position `j + 1` is known. */
  lemma {:induction false} WritesGood(st: PathState, s: seq<nat>, j: nat, parent: seq<nat>, level: seq<nat>, root: nat)
    requires Rooted(parent, level, root) && Good(st, parent, level, root)
    requires j + 1 < |s| && (forall k :: 0 <= k < |s| ==> s[k] < |parent|)
    requires st.calculated[s[j + 1]]
    requires forall i :: 0 <= i < |s| - 1 ==> s[i + 1] == parent[s[i]] && s[i] != root
    ensures var r := WriteAll(st, s, Descending(j));
            Good(r, parent, level, root) && Keeps(st, r) && r.calculated[s[0]]
    decreases j
  {
    var st1 := WriteAt(st, s, j);
    WriteAtGood(st, s, j, parent, level, root);
    var order := Descending(j);
    assert order[0] == j;
    if j == 0 {
      assert order[1..] == [];
    } else {
      assert order[1..] == Descending(j - 1);
      WritesGood(st1, s, j - 1, parent, level, root);
    }
  }

  /** With more fuel than the deepest level the climb reaches a known
      path, because the root's is known. */
  lemma {:induction false} ClimbSome(known: seq<bool>, parent: seq<nat>, level: seq<nat>, root: nat, v: nat, fuel: nat)
    requires Rooted(parent, level, root) && |known| == |parent| && known[root] && v < |parent| && level[v] < fuel
    ensures Climb(known, parent, v, fuel).Some?
    decreases fuel
  {
    if !known[v] {
      ClimbSome(known, parent, level, root, parent[v], fuel - 1);
    }
  }

  /** One corrected `tree_path` call: `v`'s path becomes known and every
      known path is the root path. */
  lemma TreePathGood(st: PathState, parent: seq<nat>, level: seq<nat>, root: nat, v: nat, fuel: nat)
    requires Rooted(parent, level, root) && Good(st, parent, level, root) && v < |parent| && level[v] < fuel
    ensures TreePath(st, parent, v, fuel).Some?
    ensures var r := TreePath(st, parent, v, fuel).value;
            Good(r, parent, level, root) && Keeps(st, r) && r.calculated[v]
  {
    ClimbSome(st.calculated, parent, level, root, v, fuel);
    var s := Climb(st.calculated, parent, v, fuel).value;
    if |s| >= 2 {
      forall i | 0 <= i < |s| - 1
        ensures s[i + 1] == parent[s[i]] && s[i] != root
      {
      }
      WritesGood(st, s, |s| - 2, parent, level, root);
    }
  }

  lemma {:induction false} InitFromGood(st: PathState, parent: seq<nat>, level: seq<nat>, root: nat, v: nat, fuel: nat)
    requires Rooted(parent, level, root) && Good(st, parent, level, root)
    requires forall u :: 0 <= u < |parent| ==> level[u] < fuel
    requires forall u :: 0 <= u < v && u < |parent| ==> st.calculated[u]
    ensures InitFrom(st, parent, v, fuel, false).Some?
    ensures var r := InitFrom(st, parent, v, fuel, false).value;
            Good(r, parent, level, root) && forall u :: 0 <= u < |parent| ==> r.calculated[u]
    decreases |parent| - v
  {
    if v < |parent| {
      TreePathGood(st, parent, level, root, v, fuel);
      var st' := TreePath(st, parent, v, fuel).value;
      InitFromGood(st', parent, level, root, v + 1, fuel);
    }
  }

  /** With the corrected write-back every vertex ends up with its path to
      the root. */
  lemma InitPathsRootPaths(root: nat, parent: seq<nat>, level: seq<nat>, fuel: nat)
    requires Rooted(parent, level, root)
    requires forall u :: 0 <= u < |parent| ==> level[u] < fuel
    ensures InitPaths(root, parent, fuel).Some?
    ensures var r := InitPaths(root, parent, fuel).value;
            forall v :: 0 <= v < |parent| ==> r.calculated[v] && r.onTreePath[v] == RootPath(parent, level, root, v)
  {
    InitFromGood(Start(|parent|, root), parent, level, root, 0, fuel);
  }

  // ---------------------------------------------------------------------
  // The write-back as written

  /** One as-written `tree_path` call: it succeeds, and it writes at most
      one path, the root path of `v` when the climb has exactly two
      vertices; so known paths stay root paths and unknown ones stay empty. */
  lemma TreePathAsWrittenGood(st: PathState, parent: seq<nat>, level: seq<nat>, root: nat, v: nat, fuel: nat)
    requires Rooted(parent, level, root) && Good(st, parent, level, root) && Blank(st)
    requires v < |parent| && level[v] < fuel
    ensures TreePathAsWritten(st, parent, v, fuel).Some?
    ensures var r := TreePathAsWritten(st, parent, v, fuel).value;
            Good(r, parent, level, root) && Blank(r) && Keeps(st, r)
  {
    ClimbSome(st.calculated, parent, level, root, v, fuel);
    var s := Climb(st.calculated, parent, v, fuel).value;
    if |s| == 2 {
      assert InclusiveRange(0, 0) == [0];
      assert s[1] == parent[s[0]] && s[0] != root;
      WriteAtGood(st, s, 0, parent, level, root);
      var w := WriteAt(st, s, 0);
      assert [0][1..] == [];
      assert WriteAll(st, s, [0]) == WriteAll(w, s, []) == w;
    } else if |s| > 2 {
      assert InclusiveRange(|s| - 2, 0) == [];
      assert WriteAll(st, s, []) == st;
    }
  }

  lemma {:induction false} InitFromAsWrittenGood(st: PathState, parent: seq<nat>, level: seq<nat>, root: nat, v: nat, fuel: nat)
    requires Rooted(parent, level, root) && Good(st, parent, level, root) && Blank(st)
    requires forall u :: 0 <= u < |parent| ==> level[u] < fuel
    ensures InitFrom(st, parent, v, fuel, true).Some?
    ensures var r := InitFrom(st, parent, v, fuel, true).value;
            Good(r, parent, level, root) && Blank(r)
    decreases |parent| - v
  {
    if v < |parent| {
      TreePathAsWrittenGood(st, parent, level, root, v, fuel);
      var st' := TreePathAsWritten(st, parent, v, fuel).value;
      InitFromAsWrittenGood(st', parent, level, root, v + 1, fuel);
    }
  }

  /** As written, `initialize_tree_paths` still succeeds on a BFS spanning
      tree, and every path it stores is the true path to the root; the
      vertices it misses keep an empty path. */
  lemma InitPathsAsWrittenSound(root: nat, parent: seq<nat>, level: seq<nat>, fuel: nat)
    requires Rooted(parent, level, root)
    requires forall u :: 0 <= u < |parent| ==> level[u] < fuel
    ensures InitPathsAsWritten(root, parent, fuel).Some?
    ensures var r := InitPathsAsWritten(root, parent, fuel).value;
            forall v :: 0 <= v < |parent| ==>
              (r.calculated[v] ==> r.onTreePath[v] == RootPath(parent, level, root, v)) &&
              (!r.calculated[v] ==> r.onTreePath[v] == [])
  {
    InitFromAsWrittenGood(Start(|parent|, root), parent, level, root, 0, fuel);
  }

  /** Root `0`, the parent of `1` is `2` and the parent of `2` is `0`: the
      climb from `1` passes `2` before `2`'s path is known, the write-back
      range `1..=0` is empty, and `1` is left with an empty path although
      its path to the root is `[2, 0]`. */
  lemma InitPathsAsWrittenLosesPath()
    ensures Rooted([0, 2, 0], [0, 2, 1], 0)
    ensures RootPath([0, 2, 0], [0, 2, 1], 0, 1) == [2, 0]
    ensures InitPathsAsWritten(0, [0, 2, 0], 3).Some?
    ensures InitPathsAsWritten(0, [0, 2, 0], 3).value.onTreePath[1] == []
    ensures !InitPathsAsWritten(0, [0, 2, 0], 3).value.calculated[1]
  {
    var parent := [0, 2, 0];
    var st0 := Start(3, 0);
    var known := [true, false, false];
    assert st0.calculated == known;
    assert Climb(known, parent, 0, 3) == Some([0]);
    assert Climb(known, parent, 0, 1) == Some([0]);
    assert [2] + [0] == [2, 0] && [1] + [2, 0] == [1, 2, 0];
    assert Climb(known, parent, 2, 2) == Some([2, 0]);
    assert Climb(known, parent, 1, 3) == Some([1, 2, 0]);
    var st1 := TreePathAsWritten(st0, parent, 0, 3).value;
    assert st1 == st0;
    assert InclusiveRange(1, 0) == [];
    var st2 := TreePathAsWritten(st1, parent, 1, 3).value;
    assert st2 == st0;
    assert Climb(known, parent, 0, 2) == Some([0]);
    assert Climb(known, parent, 2, 3) == Some([2] + [0]);
    assert InclusiveRange(0, 0) == [0];
    var st3 := TreePathAsWritten(st2, parent, 2, 3).value;
    assert st3 == WriteAt(st2, [2, 0], 0);
    assert InitFrom(st3, parent, 3, 3, true) == Some(st3);
  }
}
