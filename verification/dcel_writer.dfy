/** The web export of a DCEL: a JavaScript file `let data = { ... }`
    holding one record per vertex and one per arc. The file is modelled
    as the string written to it. */
module DcelWriters {
  import opened Strings
  import opened Dcels

  predicate IsDigit(c: char) {
    '0' <= c <= '9'
  }

  predicate AllDigits(s: string) {
    forall k :: 0 <= k < |s| ==> IsDigit(s[k])
  }

  // ---------------------------------------------------------------------
  // Records

  /** Vertex `id` as one line of the `vertices` array. */
  function VertexRecord(id: nat): string
  {
    "\t\t{\"data\": { \"id\": \"" + (NatToString(id) + "\"} }")
  }

  /** Arc number `id` from `src` to `dst` as one line of the `arcs` array. */
  function ArcRecord(id: nat, src: nat, dst: nat): string
  {
    "\t\t{\"data\": { \"id\": \"a" +
      (NatToString(id) + ("\", \"source\": " + (NatToString(src) + (", \"target\": " + (NatToString(dst) + " } }")))))
  }

  /** Two digit runs each followed by a non-digit split a string the same
      way. */
  lemma DigitsSplit(x: string, y: string, x2: string, y2: string)
    requires AllDigits(x) && AllDigits(x2)
    requires y != [] && !IsDigit(y[0]) && y2 != [] && !IsDigit(y2[0])
    requires x + y == x2 + y2
    ensures x == x2 && y == y2
  {
    var s := x + y;
    assert !IsDigit(s[|x|]) && !IsDigit(s[|x2|]);
    assert forall k :: 0 <= k < |x| ==> IsDigit(s[k]);
    assert forall k :: 0 <= k < |x2| ==> IsDigit(s[k]);
    assert |x| == |x2|;
    assert x == s[..|x|] && x2 == s[..|x2|];
    assert y == s[|x|..] && y2 == s[|x2|..];
  }

  /** Equal strings with a common prefix agree after it. */
  lemma DropPrefix(p: string, a: string, b: string)
    requires p + a == p + b
    ensures a == b
  {
    assert a == (p + a)[|p|..];
    assert b == (p + b)[|p|..];
  }

  /** A vertex record names exactly one vertex. */
  lemma VertexRecordInjective(i: nat, j: nat)
    requires VertexRecord(i) == VertexRecord(j)
    ensures i == j
  {
    DropPrefix("\t\t{\"data\": { \"id\": \"", NatToString(i) + "\"} }", NatToString(j) + "\"} }");
    DigitsSplit(NatToString(i), "\"} }", NatToString(j), "\"} }");
    NatToStringInjective(i, j);
  }

  /** An arc record names exactly one arc number, source and target. */
  lemma ArcRecordInjective(id: nat, src: nat, dst: nat, id2: nat, src2: nat, dst2: nat)
    requires ArcRecord(id, src, dst) == ArcRecord(id2, src2, dst2)
    ensures id == id2 && src == src2 && dst == dst2
  {
    var t1 := NatToString(dst) + " } }";
    var t2 := NatToString(dst2) + " } }";
    var m1 := NatToString(src) + (", \"target\": " + t1);
    var m2 := NatToString(src2) + (", \"target\": " + t2);
    var r1 := NatToString(id) + ("\", \"source\": " + m1);
    var r2 := NatToString(id2) + ("\", \"source\": " + m2);
    DropPrefix("\t\t{\"data\": { \"id\": \"a", r1, r2);
    DigitsSplit(NatToString(id), "\", \"source\": " + m1, NatToString(id2), "\", \"source\": " + m2);
    DropPrefix("\", \"source\": ", m1, m2);
    DigitsSplit(NatToString(src), ", \"target\": " + t1, NatToString(src2), ", \"target\": " + t2);
    DropPrefix(", \"target\": ", t1, t2);
    DigitsSplit(NatToString(dst), " } }", NatToString(dst2), " } }");
    NatToStringInjective(id, id2);
    NatToStringInjective(src, src2);
    NatToStringInjective(dst, dst2);
  }

  // ---------------------------------------------------------------------
  // Reference layout: records joined by a separator

  function Join(xs: seq<string>, sep: string): string
  {
    if |xs| == 0 then ""
    else if |xs| == 1 then xs[0]
    else Join(xs[..|xs| - 1], sep) + sep + xs[|xs| - 1]
  }

  lemma JoinStep(xs: seq<string>, k: nat, sep: string)
    requires 1 < k <= |xs|
    ensures Join(xs[..k], sep) == Join(xs[..k - 1], sep) + sep + xs[k - 1]
  {
    assert xs[..k][..k - 1] == xs[..k - 1];
  }

  function VertexRecords(n: nat): (r: seq<string>)
    ensures |r| == n && forall i :: 0 <= i < n ==> r[i] == VertexRecord(i)
  {
    seq(n, i requires 0 <= i < n => VertexRecord(i))
  }

  /** The arcs' records, numbered from 1. */
  function ArcRecords(arcs: seq<Arc>): (r: seq<string>)
    ensures |r| == |arcs| && forall k :: 0 <= k < |arcs| ==> r[k] == ArcRecord(k + 1, arcs[k].src, arcs[k].dst)
  {
    seq(|arcs|, k requires 0 <= k < |arcs| => ArcRecord(k + 1, arcs[k].src, arcs[k].dst))
  }

  // ---------------------------------------------------------------------
  // The writer's loops

  /** `append_vertices`: the first `k` loop rounds for `n` vertices, each
      record followed by `",\n"` unless it is the last one. */
  function VertexLines(n: nat, k: nat): string
    requires k <= n
  {
    if k == 0 then ""
    else VertexLines(n, k - 1) + VertexRecord(k - 1) + (if k - 1 < n - 1 then ",\n" else "\n")
  }

  /** The vertex loop joins the records with `",\n"`; the separator after
      the `k`-th one is `",\n"` exactly when more follow. */
  lemma {:induction false} VertexLinesJoin(n: nat, k: nat)
    requires 1 <= k <= n
    ensures VertexLines(n, k) == Join(VertexRecords(n)[..k], ",\n") + (if k < n then ",\n" else "\n")
  {
    var rs := VertexRecords(n);
    if k > 1 {
      VertexLinesJoin(n, k - 1);
      JoinStep(rs, k, ",\n");
    } else {
      assert VertexLines(n, 0) == "";
      assert rs[..1] == [VertexRecord(0)];
    }
  }

  /** The `vertices` array as a reference layout: all records joined by
      `",\n"`, the last followed by a bare newline. */
  function VerticesSection(n: nat): string
  {
    "\t\"vertices\": [\n" + (if n == 0 then "" else Join(VertexRecords(n), ",\n") + "\n") + "],\n"
  }

  /** The whole vertex loop writes the records joined by `",\n"`, with a
      bare newline after the last. */
  lemma VertexLinesAll(n: nat)
    ensures VertexLines(n, n) == if n == 0 then "" else Join(VertexRecords(n), ",\n") + "\n"
  {
    if n > 0 {
      VertexLinesJoin(n, n);
      assert VertexRecords(n)[..n] == VertexRecords(n);
    }
  }

  /** `append_vertices` lays the vertices out as the reference layout does. */
  function AppendVertices(n: nat): (r: string)
    ensures r == VerticesSection(n)
  {
    VertexLinesAll(n);
    "\t\"vertices\": [\n" + VertexLines(n, n) + "],\n"
  }

  /** `append_arcs`: the first `k` loop rounds; arc number `i` (counting
      from 1) is followed by `",\n"` when `i < bound`. The source compares
      with twice the number of arcs. */
  function ArcLines(arcs: seq<Arc>, k: nat, bound: nat): string
    requires k <= |arcs|
  {
    if k == 0 then ""
    else ArcLines(arcs, k - 1, bound) + ArcRecord(k, arcs[k - 1].src, arcs[k - 1].dst) +
         (if k < bound then ",\n" else "\n")
  }

  lemma {:induction false} ArcLinesJoin(arcs: seq<Arc>, k: nat, bound: nat)
    requires 1 <= k <= |arcs| && k <= bound
    ensures ArcLines(arcs, k, bound) == Join(ArcRecords(arcs)[..k], ",\n") + (if k < bound then ",\n" else "\n")
  {
    var rs := ArcRecords(arcs);
    var rec := ArcRecord(k, arcs[k - 1].src, arcs[k - 1].dst);
    var sep := if k < bound then ",\n" else "\n";
    assert ArcLines(arcs, k, bound) == ArcLines(arcs, k - 1, bound) + rec + sep;
    if k > 1 {
      ArcLinesJoin(arcs, k - 1, bound);
      JoinStep(rs, k, ",\n");
    } else {
      assert ArcLines(arcs, 0, bound) == "";
      assert rs[..1] == [rec];
    }
  }

  /** The `arcs` array as a reference layout: all records joined by
      `",\n"`, the last followed by `last`. */
  function ArcsSection(arcs: seq<Arc>, last: string): string
  {
    "\t\"arcs\": [\n" + (if arcs == [] then "" else Join(ArcRecords(arcs), ",\n") + last) + "\t],\n"
  }

  /** The whole arc loop writes the records joined by `",\n"`; the last is
      followed by a bare newline only when the bound is the arc count. */
  lemma ArcLinesAll(arcs: seq<Arc>, bound: nat)
    requires |arcs| <= bound
    ensures ArcLines(arcs, |arcs|, bound) ==
            if arcs == [] then "" else Join(ArcRecords(arcs), ",\n") + (if |arcs| < bound then ",\n" else "\n")
  {
    if arcs != [] {
      ArcLinesJoin(arcs, |arcs|, bound);
      assert ArcRecords(arcs)[..|arcs|] == ArcRecords(arcs);
    }
  }

  function AppendArcsWith(arcs: seq<Arc>, bound: nat): string
  {
    "\t\"arcs\": [\n" + ArcLines(arcs, |arcs|, bound) + "\t],\n"
  }

  /** `append_arcs` as written: the test is `i < num_arcs * 2`, which
      always holds, so every arc record, the last included, is followed by
      `",\n"`. */
  function AppendArcsAsWritten(arcs: seq<Arc>): (r: string)
    ensures r == ArcsSection(arcs, ",\n")
  {
    ArcLinesAll(arcs, 2 * |arcs|);
    AppendArcsWith(arcs, 2 * |arcs|)
  }

  /** `append_arcs` as evidently intended, like `append_vertices`: the
      test is `i < num_arcs`, and the last record is followed by a bare
      newline. */
  function AppendArcs(arcs: seq<Arc>): (r: string)
    ensures r == ArcsSection(arcs, "\n")
  {
    ArcLinesAll(arcs, |arcs|);
    AppendArcsWith(arcs, |arcs|)
  }

  /** Strings that agree up to a point and then differ in one character
      are different. */
  lemma DifferAt(p: string, x: string, y: string, q: string)
    requires x != [] && y != [] && x[0] != y[0]
    ensures p + x + q != p + y + q
  {
    assert (p + x + q)[|p|] == x[0];
    assert (p + y + q)[|p|] == y[0];
  }

  /** With at least one arc, the written array differs from the intended
      one: a `,` stands where the newline after the last record belongs. */
  lemma AppendArcsAsWrittenDiffers(arcs: seq<Arc>)
    requires arcs != []
    ensures AppendArcsAsWritten(arcs) != AppendArcs(arcs)
  {
    DifferAt("\t\"arcs\": [\n" + Join(ArcRecords(arcs), ",\n"), ",\n", "\n", "\t],\n");
  }

  // ---------------------------------------------------------------------
  // The whole file

  /** `write_dcel` as written: the file opens with `let data = {`, holds
      the `vertices` array and the `arcs` array with its trailing comma,
      and closes with `}`. */
  function WriteDcelAsWritten(d: Dcel): (r: string)
    ensures r == "let data = {\n" + VerticesSection(|d.vertices|) + ArcsSection(d.arcs, ",\n") + "}"
  {
    "let data = {\n" + AppendVertices(|d.vertices|) + AppendArcsAsWritten(d.arcs) + "}"
  }

  /** `write_dcel` with the corrected arc separator: the file opens with
      `let data = {`, holds the `vertices` array of every vertex number and
      the `arcs` array of every arc's number, source and target, and closes
      with `}`. */
  function WriteDcel(d: Dcel): (r: string)
    ensures r == "let data = {\n" + VerticesSection(|d.vertices|) + ArcsSection(d.arcs, "\n") + "}"
  {
    "let data = {\n" + AppendVertices(|d.vertices|) + AppendArcs(d.arcs) + "}"
  }
}
