// The CharRange structure of libunicode.h with the functions that change it in place:
// cr_add_point to cr_regexp_canonicalize. CharRange holds the lists they compute.
module CharSet {
  import opened CharRange
  import opened Sorting

  // A run of case_conv_table1: the characters code, ..., code + len - 1.
  datatype Run = Run(code: int, len: int)

  // The case conversion table, with its contents left abstract: the runs, the folding of a
  // character by the entry of its run, and the ranges unicode_case1 lists for the mode.
  datatype CaseTable = CaseTable(runs: seq<Run>, fold: (int, int) -> int, mask: seq<Point>)

  predicate InRun(r: Run, c: int) {
    r.code <= c < r.code + r.len
  }

  // The runs are disjoint and in increasing order.
  predicate RunsOk(runs: seq<Run>) {
    && (forall k :: 0 <= k < |runs| ==> 0 <= runs[k].code && 0 < runs[k].len)
    && (forall k, l :: 0 <= k < l < |runs| ==> runs[k].code + runs[k].len <= runs[l].code)
  }

  // The index of the run of c, or -1.
  function RunOf(runs: seq<Run>, c: int): (idx: int)
    ensures -1 <= idx < |runs|
    ensures idx >= 0 ==> InRun(runs[idx], c)
    ensures idx == -1 ==> forall k :: 0 <= k < |runs| ==> !InRun(runs[k], c)
  {
    if runs == [] then -1
    else if InRun(runs[|runs| - 1], c) then |runs| - 1
    else RunOf(runs[..|runs| - 1], c)
  }

  lemma {:induction false} RunUnique(runs: seq<Run>, c: int, k: int)
    requires RunsOk(runs) && 0 <= k < |runs| && InRun(runs[k], c)
    ensures RunOf(runs, c) == k
  {
  }

  // The canonical form of a character, as the table defines it.
  function Canon(t: CaseTable, c: int): (d: int) {
    if RunOf(t.runs, c) == -1 then c else t.fold(c, RunOf(t.runs, c))
  }

  // What cr_regexp_canonicalize and lre_canonicalize need of the table: its runs are in
  // order, it folds characters to characters, and the mask covers all characters that are
  // not their own canonical form, and nothing outside the runs.
  ghost predicate TableOk(t: CaseTable) {
    && RunsOk(t.runs) && RangeList(t.mask)
    && (forall c {:trigger Canon(t, c)} :: 0 <= c <= 0x10_FFFF ==> 0 <= Canon(t, c) <= 0x10_FFFF)
    && (forall c {:trigger Canon(t, c)} :: Canon(t, c) != c ==> In(t.mask, c))
    && (forall c {:trigger In(t.mask, c)} :: In(t.mask, c) ==> 0 <= c <= 0x10_FFFF && RunOf(t.runs, c) >= 0)
  }

  // The fast path of lre_canonicalize for characters below 128.
  function FastCanon(c: int, unicode: bool): (d: int) {
    if unicode then (if 'A' as int <= c <= 'Z' as int then c - 'A' as int + 'a' as int else c)
    else (if 'a' as int <= c <= 'z' as int then c - 'a' as int + 'A' as int else c)
  }

  ghost predicate FastPathOk(t: CaseTable, unicode: bool) {
    forall c {:trigger Canon(t, c)} :: 0 <= c < 128 ==> Canon(t, c) == FastCanon(c, unicode)
  }

  // lre_canonicalize: binary search for the run of c.
  method Canonicalize(t: CaseTable, unicode: bool, c: int) returns (d: int)
    requires TableOk(t) && FastPathOk(t, unicode) && 0 <= c
    ensures d == Canon(t, c)
  {
    if c < 128 {
      return FastCanon(c, unicode);
    }
    var idxMin, idxMax := 0, |t.runs| - 1;
    while idxMin <= idxMax
      invariant 0 <= idxMin <= idxMax + 1 <= |t.runs|
      invariant forall k :: 0 <= k < |t.runs| && InRun(t.runs[k], c) ==> idxMin <= k <= idxMax
    {
      var idx := (idxMax + idxMin) / 2;
      var r := t.runs[idx];
      if c < r.code {
        idxMax := idx - 1;
      } else if c >= r.code + r.len {
        idxMin := idx + 1;
      } else {
        RunUnique(t.runs, c, idx);
        return t.fold(c, idx);
      }
    }
    return c;
  }

  // ---------------------------------------------------------------------------
  // Sorting ranges and merging those that overlap

  type Pair = (Point, Point)

  function Pairs(p: seq<Point>): (q: seq<Pair>)
    ensures |q| == |p| / 2
    ensures forall k :: 0 <= k < |q| ==> q[k] == (p[2 * k], p[2 * k + 1])
  {
    seq(|p| / 2, k requires 0 <= k < |p| / 2 => (p[2 * k], p[2 * k + 1]))
  }

  function Flatten(q: seq<Pair>): (p: seq<Point>)
    ensures |p| == 2 * |q|
    ensures forall k :: 0 <= k < |q| ==> p[2 * k] == q[k].0 && p[2 * k + 1] == q[k].1
  {
    seq(2 * |q|, k requires 0 <= k < 2 * |q| => if k % 2 == 0 then q[k / 2].0 else q[k / 2].1)
  }

  // point_cmp: the ranges are ordered by their first point.
  function PointCompare(x: Pair, y: Pair): (c: int) {
    (if x.0 > y.0 then 1 else 0) - (if x.0 < y.0 then 1 else 0)
  }

  lemma {:induction false} PointCompareOrder()
    ensures TotalPreorder(PointCompare)
  {
  }

  // No range is empty.
  predicate Proper(p: seq<Point>) {
    |p| % 2 == 0 && forall k :: 0 <= k < |p| / 2 ==> p[2 * k] < p[2 * k + 1]
  }

  // The ranges are ordered by their first point.
  predicate Ordered(p: seq<Point>) {
    forall k, l :: 0 <= k < l < |p| / 2 ==> p[2 * k] <= p[2 * l]
  }

  lemma {:induction false} PairOf(p: seq<Point>, q: seq<Pair>, k: int) returns (j: int)
    requires multiset(q) == multiset(Pairs(p)) && 0 <= k < |q|
    ensures 0 <= j < |p| / 2 && q[k] == (p[2 * j], p[2 * j + 1])
  {
    assert q[k] in multiset(q);
    assert q[k] in Pairs(p);
    j :| 0 <= j < |Pairs(p)| && Pairs(p)[j] == q[k];
  }

  lemma {:induction false} OfPair(p: seq<Point>, q: seq<Pair>, j: int) returns (k: int)
    requires multiset(q) == multiset(Pairs(p)) && 0 <= j < |p| / 2
    ensures 0 <= k < |q| && q[k] == (p[2 * j], p[2 * j + 1])
  {
    assert Pairs(p)[j] in multiset(Pairs(p));
    assert Pairs(p)[j] in multiset(q);
    k :| 0 <= k < |q| && q[k] == Pairs(p)[j];
  }

  lemma {:induction false} SortedPairsIn(p: seq<Point>, q: seq<Pair>, c: int)
    requires multiset(q) == multiset(Pairs(p))
    ensures In(Flatten(q), c) <==> In(p, c)
  {
    hide Pairs, Flatten;
    var r := Flatten(q);
    if In(r, c) {
      var k :| 0 <= k < |r| / 2 && r[2 * k] <= c < r[2 * k + 1];
      var j := PairOf(p, q, k);
      assert p[2 * j] <= c < p[2 * j + 1];
    }
    if In(p, c) {
      var j :| 0 <= j < |p| / 2 && p[2 * j] <= c < p[2 * j + 1];
      var k := OfPair(p, q, j);
      assert r[2 * k] <= c < r[2 * k + 1];
    }
  }

  // Sorting the ranges keeps the set.
  lemma {:induction false} SortedPairs(p: seq<Point>, q: seq<Pair>)
    requires Proper(p) && multiset(q) == multiset(Pairs(p)) && SortedRange(q, PointCompare, 0, |q|)
    ensures Proper(Flatten(q)) && Ordered(Flatten(q))
    ensures forall c: int :: In(Flatten(q), c) <==> In(p, c)
  {
    hide Pairs, Flatten, In;
    var r := Flatten(q);
    forall k | 0 <= k < |r| / 2
      ensures r[2 * k] < r[2 * k + 1]
    {
      var j := PairOf(p, q, k);
    }
    forall k, l | 0 <= k < l < |r| / 2
      ensures r[2 * k] <= r[2 * l]
    {
      assert PointCompare(q[k], q[l]) <= 0;
    }
    forall c: int
      ensures In(r, c) <==> In(p, c)
    {
      SortedPairsIn(p, q, c);
    }
  }

  // The set of the first n points.
  predicate InFirst(p: seq<Point>, n: int, c: int)
    requires 0 <= n <= |p|
  {
    exists k :: 0 <= k < n / 2 && p[2 * k] <= c < p[2 * k + 1]
  }

  lemma {:induction false} InFirstStep(p: seq<Point>, n: int, c: int)
    requires 0 <= n && n + 2 <= |p| && n % 2 == 0
    ensures InFirst(p, n + 2, c) <==> InFirst(p, n, c) || p[n] <= c < p[n + 1]
  {
    if p[n] <= c < p[n + 1] {
      assert 2 * (n / 2) == n;
    }
  }

  // Only the first points matter.
  lemma {:induction false} InFirstSame(p: seq<Point>, q: seq<Point>, n: int, c: int)
    requires 0 <= n <= |p| && n <= |q| && p[..n] == q[..n] && n % 2 == 0
    ensures InFirst(p, n, c) <==> InFirst(q, n, c)
    ensures n == |p| ==> (InFirst(q, n, c) <==> In(p, c))
  {
    if InFirst(p, n, c) {
      var k :| 0 <= k < n / 2 && p[2 * k] <= c < p[2 * k + 1];
      assert p[..n][2 * k] == q[..n][2 * k] && p[..n][2 * k + 1] == q[..n][2 * k + 1];
      assert q[2 * k] <= c < q[2 * k + 1];
    }
    if InFirst(q, n, c) {
      var k :| 0 <= k < n / 2 && q[2 * k] <= c < q[2 * k + 1];
      assert p[..n][2 * k] == q[..n][2 * k] && p[..n][2 * k + 1] == q[..n][2 * k + 1];
      assert p[2 * k] <= c < p[2 * k + 1];
    }
  }

  // State of the loop of cr_compress: k points written, the points from i on untouched.
  predicate Compacted(p: seq<Point>, points: seq<Point>, k: int, i: int) {
    && 0 <= k <= i && |points| == |p| && (i <= |p| ==> points[i..] == p[i..])
    && k <= |p| && points[..k] + CompressFrom(p, i) == CharRange.Compress(p)
  }

  lemma {:induction false} CompactedAt(p: seq<Point>, points: seq<Point>, k: int, i: int, j: int)
    requires Compacted(p, points, k, i) && i <= j < |p|
    ensures points[j] == p[j]
  {
    assert points[j] == points[i..][j - i] && p[j] == p[i..][j - i];
  }

  lemma {:induction false} CompactSkip(p: seq<Point>, points: seq<Point>, k: int, i: int)
    requires Compacted(p, points, k, i) && i + 1 < |p| && p[i] == p[i + 1]
    ensures Compacted(p, points, k, i + 2)
  {
    assert points[i + 2..] == points[i..][2..] == p[i + 2..];
  }

  lemma {:induction false} CompactCopy(p: seq<Point>, points: seq<Point>, k: int, i: int, j: int)
    requires Compacted(p, points, k, i) && i + 1 < |p| && p[i] != p[i + 1] && j == ChainEnd(p, i)
    ensures Compacted(p, points[k := p[i]][k + 1 := p[j + 1]], k + 2, j + 2)
  {
    var after := points[k := p[i]][k + 1 := p[j + 1]];
    assert after[..k + 2] == points[..k] + [p[i], p[j + 1]];
    assert after[j + 2..] == points[i..][j + 2 - i..] == p[j + 2..];
    assert points[..k] + ([p[i], p[j + 1]] + CompressFrom(p, j + 2)) == after[..k + 2] + CompressFrom(p, j + 2);
  }

  lemma {:induction false} CompactNone(p: seq<Point>)
    ensures Compacted(p, p, 0, 0)
  {
    assert p[..0] + CompressFrom(p, 0) == CompressFrom(p, 0);
  }

  lemma {:induction false} CompactAll(p: seq<Point>, points: seq<Point>, k: int, i: int)
    requires Compacted(p, points, k, i) && i + 1 >= |p|
    ensures points[..k] == CharRange.Compress(p)
  {
    assert points[..k] + [] == points[..k];
  }

  lemma {:induction false} ChainEndStep(p: seq<Point>, j: nat)
    requires j + 1 < |p|
    ensures ChainEnd(p, j) == if j + 3 < |p| && p[j + 1] == p[j + 2] then ChainEnd(p, j + 2) else j
  {
  }

  // State of the loop that removes overlaps: j points written, i points read.
  ghost predicate Merged(p: seq<Point>, points: seq<Point>, j: int, i: int) {
    && 0 <= j <= i <= |points| == |p| && j % 2 == 0 && i % 2 == 0 && Proper(p) && Ordered(p)
    && points[i..] == p[i..] && StrictlySorted(points[..j])
    && (j > 0 && i < |points| ==> points[j - 1] < points[i])
    && (forall c: int :: InFirst(points, j, c) <==> InFirst(p, i, c))
  }

  // State of the inner loop: the ranges from i0 to i together are first..last.
  ghost predicate Merging(p: seq<Point>, i0: int, i: int, first: int, last: int) {
    && 0 <= i0 < i <= |p| && i0 % 2 == 0 && i % 2 == 0 && Proper(p) && Ordered(p) && first == p[i0] && first < last
    && Covered(p, i0, i, first, last)
  }

  // The ranges from i0 to i cover what lies between first and last.
  ghost predicate Covered(p: seq<Point>, i0: int, i: int, first: int, last: int)
    requires 0 <= i0 <= i <= |p|
  {
    forall c: int :: InFirst(p, i, c) <==> InFirst(p, i0, c) || first <= c < last
  }

  lemma {:induction false} MergedNone(p: seq<Point>)
    requires Proper(p) && Ordered(p)
    ensures Merged(p, p, 0, 0)
  {
  }

  lemma {:induction false} MergedAt(p: seq<Point>, points: seq<Point>, j: int, i: int)
    requires Merged(p, points, j, i) && i < |p|
    ensures i + 1 < |p| && points[i] == p[i] && points[i + 1] == p[i + 1]
  {
    assert points[i] == points[i..][0] && p[i] == p[i..][0];
    assert points[i + 1] == points[i..][1] && p[i + 1] == p[i..][1];
  }

  lemma {:induction false} MergedAt2(p: seq<Point>, points: seq<Point>, j: int, i0: int, i: int)
    requires Merged(p, points, j, i0) && i0 <= i <= |p| && i % 2 == 0
    ensures i < |p| ==> i + 1 < |p| && points[i] == p[i] && points[i + 1] == p[i + 1]
  {
    if i < |p| {
      assert points[i] == points[i0..][i - i0] && p[i] == p[i0..][i - i0];
      assert points[i + 1] == points[i0..][i + 1 - i0] && p[i + 1] == p[i0..][i + 1 - i0];
    }
  }

  lemma {:induction false} FirstRange(p: seq<Point>, i0: int)
    requires Proper(p) && Ordered(p) && 0 <= i0 && i0 + 2 <= |p| && i0 % 2 == 0
    ensures Merging(p, i0, i0 + 2, p[i0], p[i0 + 1])
  {
    assert p[2 * (i0 / 2)] < p[2 * (i0 / 2) + 1];
    forall c: int
      ensures InFirst(p, i0 + 2, c) <==> InFirst(p, i0, c) || p[i0] <= c < p[i0 + 1]
    {
      InFirstStep(p, i0, c);
    }
  }

  // A range that starts inside the merged range or at its end extends it.
  lemma {:induction false} MergeRange(p: seq<Point>, i0: int, i: int, first: int, last: int, last': int)
    requires Merging(p, i0, i, first, last) && i + 2 <= |p| && p[i] <= last
    requires last' == if p[i + 1] <= last then last else p[i + 1]
    ensures Merging(p, i0, i + 2, first, last')
  {
    RangesInOrder(p, i0, i);
    CoveredStep(p, i0, i, i + 2, first, last, last');
  }

  lemma {:induction false} CoveredStep(p: seq<Point>, i0: int, i: int, j: int, first: int, last: int, last': int)
    requires 0 <= i0 <= i && j == i + 2 <= |p| && i % 2 == 0 && Covered(p, i0, i, first, last)
    requires first <= p[i] <= last && last' == if p[i + 1] <= last then last else p[i + 1]
    ensures Covered(p, i0, j, first, last')
  {
    hide InFirst;
    forall c: int
      ensures InFirst(p, j, c) <==> InFirst(p, i0, c) || first <= c < last'
    {
      InFirstStep(p, i, c);
      assert InFirst(p, i, c) <==> InFirst(p, i0, c) || first <= c < last;
    }
  }

  // Of two intervals, the second starts no earlier and is not empty.
  lemma {:induction false} RangesInOrder(p: seq<Point>, i: int, j: int)
    requires Proper(p) && Ordered(p) && 0 <= i < j && j + 2 <= |p| && i % 2 == 0 && j % 2 == 0
    ensures p[i] <= p[j] < p[j + 1]
  {
    assert i / 2 < j / 2 < |p| / 2 && i == 2 * (i / 2) && j == 2 * (j / 2);
    assert p[2 * (i / 2)] <= p[2 * (j / 2)] && p[2 * (j / 2)] < p[2 * (j / 2) + 1];
  }

  lemma {:induction false} MergedStep(p: seq<Point>, points: seq<Point>, j: int, i0: int, i: int, first: Point, last: Point)
    requires Merged(p, points, j, i0) && Merging(p, i0, i, first, last)
    requires i < |p| ==> last < p[i]
    ensures j + 2 <= i && Merged(p, points[j := first][j + 1 := last], j + 2, i)
  {
    hide InFirst, Proper, Ordered;
    var after := points[j := first][j + 1 := last];
    assert after[i..] == points[i0..][i - i0..] == p[i..];
    assert i < |p| ==> after[i] == after[i..][0] && p[i] == p[i..][0];
    assert points[i0] == points[i0..][0] && p[i0] == p[i0..][0];
    assert after[..j + 2] == points[..j] + [first, last];
    assert after[..j] == points[..j];
    assert forall k :: 0 <= k < j ==> points[..j][k] < first by {
      assert j > 0 ==> points[..j][j - 1] < first;
    }
    forall c: int
      ensures InFirst(after, j + 2, c) <==> InFirst(p, i, c)
    {
      InFirstStep(after, j, c);
      InFirstSame(after, points, j, c);
    }
  }

  lemma {:induction false} MergeNext(op: SetOp, a: seq<Point>, b: seq<Point>, i: nat, j: nat, out: seq<Point>)
    requires i <= |a| && j <= |b|
    ensures Merge(op, a, b, i, j, out)
         == if i == |a| && j == |b| then out
            else var s := MergeStep(op, a, b, i, j, out); Merge(op, a, b, s.0, s.1, s.2)
  {
  }

  class CharRangeBuffer {
    var points: seq<Point>

    constructor ()
      ensures points == []
    {
      points := [];
    }

    method AddPoint(v: Point)
      modifies this
      ensures points == old(points) + [v]
    {
      points := points + [v];
    }

    method AddInterval(c1: Point, c2: Point)
      modifies this
      ensures points == old(points) + [c1, c2]
    {
      points := points + [c1, c2];
    }

    // cr_compress works inside the array: what is written stays behind what is read.
    method Compress()
      modifies this
      ensures points == CharRange.Compress(old(points))
    {
      hide Compacted, CompressFrom, ChainEnd;
      ghost var p := points;
      var len := |points|;
      var i, j, k := 0, 0, 0;
      CompactNone(p);
      while i + 1 < len
        invariant 0 <= k <= i && |points| == len && k <= len
        invariant Compacted(p, points, k, i)
      {
        CompactedAt(p, points, k, i, i);
        CompactedAt(p, points, k, i, i + 1);
        if points[i] == points[i + 1] {
          CompactSkip(p, points, k, i);
          i := i + 2;
        } else {
          j := i;
          ghost var q := points;
          while j + 3 < len && points[j + 1] == points[j + 2]
            invariant points == q && i <= j && j + 1 < len && ChainEnd(p, j) == ChainEnd(p, i)
          {
            CompactedAt(p, points, k, i, j + 1);
            CompactedAt(p, points, k, i, j + 2);
            ChainEndStep(p, j);
            j := j + 2;
          }
          CompactedAt(p, points, k, i, j + 1);
          CompactedAt(p, points, k, i, i);
          if j + 3 < len {
            CompactedAt(p, points, k, i, j + 2);
          }
          ChainEndStep(p, j);
          CompactCopy(p, points, k, i, j);
          points := points[k := points[i]][k + 1 := points[j + 1]];
          k := k + 2;
          i := j + 2;
        }
      }
      ghost var before := points;
      points := points[..k];
      CompactAll(p, before, k, i);
    }

    // cr_op appends to the buffer a point whenever the status of the operation changes.
    method Op(a: seq<Point>, b: seq<Point>, op: SetOp)
      modifies this
      ensures points == CharRange.Compress(Merge(op, a, b, 0, 0, old(points)))
    {
      hide Merge, CharRange.Compress;
      var i, j := 0, 0;
      while true
        invariant 0 <= i <= |a| && 0 <= j <= |b|
        invariant Merge(op, a, b, i, j, points) == Merge(op, a, b, 0, 0, old(points))
        decreases |a| - i + |b| - j
      {
        MergeNext(op, a, b, i, j, points);
        var v;
        if i < |a| && j < |b| {
          if a[i] < b[j] {
            v := a[i];
            i := i + 1;
          } else if a[i] == b[j] {
            v := a[i];
            i, j := i + 1, j + 1;
          } else {
            v := b[j];
            j := j + 1;
          }
        } else if i < |a| {
          v := a[i];
          i := i + 1;
        } else if j < |b| {
          v := b[j];
          j := j + 1;
        } else {
          break;
        }
        var isIn := Apply(op, i % 2 == 1, j % 2 == 1);
        if isIn != (|points| % 2 == 1) {
          AddPoint(v);
        }
      }
      Compress();
    }

    // cr_op1: the operation with the old contents as the first operand.
    method Op1(b: seq<Point>, op: SetOp)
      modifies this
      ensures points == CharRange.Op(op, old(points), b)
    {
      var a := points;
      points := [];
      Op(a, b, op);
    }

    method UnionInterval(c1: Point, c2: Point)
      modifies this
      ensures points == CharRange.Op(Union, old(points), [c1, ((c2 as int) + 1) % 0x1_0000_0000])
    {
      Op1([c1, ((c2 as int) + 1) % 0x1_0000_0000], Union);
    }

    // cr_invert
    method Invert()
      modifies this
      ensures points == CharRange.Invert(old(points))
    {
      points := [0] + points + [UINT32_MAX];
      Compress();
    }

    // cr_sort_and_remove_overlap: ranges in any order, which may overlap, become the
    // canonical list of their union.
    method SortAndRemoveOverlap()
      requires Proper(points)
      modifies this
      ensures Canonical(points)
      ensures forall c: int :: In(points, c) <==> In(old(points), c)
    {
      var p := points;
      var pairs := new Pair[|p| / 2](k requires 0 <= k < |p| / 2 => (p[2 * k], p[2 * k + 1]));
      assert pairs[..] == Pairs(points);
      PointCompareOrder();
      Rqsort(pairs, PointCompare);
      SortedPairs(points, pairs[..]);
      points := Flatten(pairs[..]);
      RemoveOverlap();
    }

    // The loop that merges ordered ranges in place.
    method RemoveOverlap()
      requires Proper(points) && Ordered(points)
      modifies this
      ensures Canonical(points)
      ensures forall c: int :: In(points, c) <==> In(old(points), c)
    {
      hide InFirst, Ordered, Proper;
      ghost var p := points;
      var i, j := 0, 0;
      MergedNone(p);
      while i < |points|
        invariant |points| == |p| && 0 <= j <= i <= |points| == |p| && j % 2 == 0 && i % 2 == 0
        invariant Merged(p, points, j, i)
      {
        hide Merged;
        var i0 := i;
        i := i + 2;
        MergedAt(p, points, j, i0);
        var first, last := points[i0], points[i0 + 1];
        FirstRange(p, i0);
        ghost var q := points;
        while i < |points|
          invariant points == q && i0 + 2 <= i <= |points| && i % 2 == 0
          invariant Merging(p, i0, i, first, last)
        {
          hide Merging;
          MergedAt2(p, points, j, i0, i);
          var first', last' := points[i], points[i + 1];
          if first' > last {
            break;
          } else if last' <= last {
            MergeRange(p, i0, i, first, last, last);
            i := i + 2;
          } else {
            MergeRange(p, i0, i, first, last, last');
            last := last';
            i := i + 2;
          }
        }
        MergedAt2(p, points, j, i0, i);
        MergedStep(p, points, j, i0, i, first, last);
        points := points[j := first][j + 1 := last];
        j := j + 2;
      }
      ghost var before := points;
      points := points[..j];
      forall c: int
        ensures In(points, c) <==> In(p, c)
      {
        InFirstSame(p, p, |p|, c);
        InFirstSame(points, before, j, c);
      }
    }

    // cr_regexp_canonicalize: the set becomes the set of the canonical forms of its members.
    method RegexpCanonicalize(t: CaseTable)
      requires TableOk(t) && RangeList(points)
      modifies this
      ensures Canonical(points)
      ensures forall d: int :: In(points, d) <==> exists c :: In(old(points), c) && Canon(t, c) == d
    {
      ghost var p := points;
      var mask := new CharRangeBuffer();
      var inter := new CharRangeBuffer();
      var result := new CharRangeBuffer();
      var sub := new CharRangeBuffer();
      mask.points := t.mask;
      inter.Op(mask.points, points, Inter);
      OpCorrect(Inter, t.mask, points);
      mask.Invert();
      InvertCorrect(t.mask);
      sub.Op(mask.points, points, Inter);
      OpCorrect(Inter, CharRange.Invert(t.mask), points);
      result.AddImage(t, inter.points);
      result.SortAndRemoveOverlap();
      points := [];
      Op(result.points, sub.points, Union);
      OpCorrect(Union, result.points, sub.points);
      ImageOfParts(t, p, inter.points, sub.points, result.points, points);
    }

    // The loop over the members that may change: their canonical forms are added as
    // intervals, in the order in which they come up.
    method AddImage(t: CaseTable, inter: seq<Point>)
      requires TableOk(t) && Canonical(inter) && points == []
      requires forall c: int :: In(inter, c) ==> In(t.mask, c)
      modifies this
      ensures Proper(points)
      ensures forall d: int :: In(points, d) <==> exists c :: In(inter, c) && Canon(t, c) == d
    {
      forall c: int
        ensures InFirst(inter, |inter|, c) <==> In(inter, c)
        ensures !InFirst(inter, 0, c)
      {
        InFirstSame(inter, inter, |inter|, c);
      }
      ghost var seen: set<int> := {};
      var dStart: Point, dEnd: Point := UINT32_MAX, UINT32_MAX;
      var idx, i := 0, 0;
      while i < |inter|
        invariant 0 <= i <= |inter| && i % 2 == 0 && 0 <= idx
        invariant Proper(points) && Collecting(t, seen, points, dStart, dEnd)
        invariant forall c: int :: c in seen <==> InFirst(inter, i, c)
        invariant forall c: int :: InFirst(inter, |inter|, c) <==> In(inter, c)
        invariant i < |inter| ==> forall k :: 0 <= k < idx && k < |t.runs| ==> t.runs[k].code + t.runs[k].len <= inter[i]
      {
        var start, end := inter[i], inter[i + 1];
        ghost var before := seen;
        var c: int := start;
        while c < end
          invariant start <= c <= end && 0 <= idx
          invariant Proper(points) && Collecting(t, seen, points, dStart, dEnd)
          invariant forall x: int :: x in seen <==> x in before || start <= x < c
          invariant forall k :: 0 <= k < idx && k < |t.runs| ==> t.runs[k].code + t.runs[k].len <= c
        {
          MemberHasRun(t, inter, i, c);
          idx := FindRun(t, idx, c);
          RunUnique(t.runs, c, idx);
          var d := t.fold(c, idx);
          assert d == Canon(t, c);
          ghost var points0, dStart0, dEnd0 := points, dStart, dEnd;
          if dStart == UINT32_MAX {
            dStart, dEnd := d, d + 1;
          } else if dEnd == d {
            dEnd := dEnd + 1;
          } else {
            AddInterval(dStart, dEnd);
            dStart, dEnd := d, d + 1;
          }
          CollectOne(t, seen, points0, dStart0, dEnd0, c, points, dStart, dEnd);
          seen := seen + {c};
          c := c + 1;
        }
        forall x: int
          ensures x in seen <==> InFirst(inter, i + 2, x)
        {
          InFirstStep(inter, i, x);
          assert x in before <==> InFirst(inter, i, x);
        }
        i := i + 2;
      }
      ghost var points0 := points;
      if dStart != UINT32_MAX {
        AddInterval(dStart, dEnd);
        ProperAppend(points0, dStart, dEnd);
      }
      forall d: int
        ensures In(points, d) <==> exists c :: In(inter, c) && Canon(t, c) == d
      {
        assert Collected(points0, dStart, dEnd, d) <==> In(points, d);
        if In(points, d) {
          var c :| c in seen && Canon(t, c) == d;
          assert InFirst(inter, |inter|, c);
        }
        if c :| In(inter, c) && Canon(t, c) == d {
          assert InFirst(inter, |inter|, c);
          assert c in seen;
        }
      }
    }
  }

  lemma {:induction false} ImageOfParts(t: CaseTable, p: seq<Point>, inter: seq<Point>, sub: seq<Point>, image: seq<Point>, all: seq<Point>)
    requires TableOk(t)
    requires forall c: int :: In(inter, c) <==> In(t.mask, c) && In(p, c)
    requires forall c: int :: In(sub, c) <==> In(CharRange.Invert(t.mask), c) && In(p, c)
    requires forall c :: 0 <= c < UINT32_MAX ==> (In(CharRange.Invert(t.mask), c) <==> !In(t.mask, c))
    requires forall d: int :: In(image, d) <==> exists c :: In(inter, c) && Canon(t, c) == d
    requires forall d: int :: In(all, d) <==> In(image, d) || In(sub, d)
    ensures forall d: int :: In(all, d) <==> exists c :: In(p, c) && Canon(t, c) == d
  {
    forall d: int
      ensures In(all, d) <==> exists c :: In(p, c) && Canon(t, c) == d
    {
      if In(sub, d) {
        assert 0 <= d < UINT32_MAX;
        assert !In(t.mask, d) && In(p, d) && Canon(t, d) == d;
      }
      if c :| In(p, c) && Canon(t, c) == d {
        assert 0 <= c < UINT32_MAX;
        if !In(t.mask, c) {
          assert Canon(t, c) == c && In(sub, d);
        }
      }
    }
  }

  lemma {:induction false} ProperAppend(p: seq<Point>, x: Point, y: Point)
    requires Proper(p) && x < y
    ensures Proper(p + [x, y])
    ensures forall d: int :: In(p + [x, y], d) <==> In(p, d) || x <= d < y
  {
    var q := p + [x, y];
    forall d: int
      ensures In(q, d) <==> In(p, d) || x <= d < y
    {
      InFirstStep(q, |p|, d);
      InFirstSame(p, q, |p|, d);
      InFirstSame(q, q, |q|, d);
    }
  }

  // The intervals added so far, with the one under construction, are the canonical forms
  // of the characters seen.
  ghost predicate Collecting(t: CaseTable, seen: set<int>, points: seq<Point>, dStart: Point, dEnd: Point) {
    && (dStart != UINT32_MAX ==> dStart < dEnd <= 0x11_0000)
    && forall d: int :: Collected(points, dStart, dEnd, d) <==> exists c :: c in seen && Canon(t, c) == d
  }

  predicate Collected(points: seq<Point>, dStart: Point, dEnd: Point, d: int) {
    In(points, d) || (dStart != UINT32_MAX && dStart <= d < dEnd)
  }

  lemma {:induction false} CollectOne(t: CaseTable, seen: set<int>, points: seq<Point>, dStart: Point, dEnd: Point, c: int,
                                      points': seq<Point>, dStart': Point, dEnd': Point)
    requires TableOk(t) && Proper(points) && Collecting(t, seen, points, dStart, dEnd) && 0 <= c <= 0x10_FFFF
    requires var d := Canon(t, c);
             if dStart == UINT32_MAX then points' == points && dStart' == d && dEnd' == d + 1
             else if dEnd == d then points' == points && dStart' == dStart && dEnd' == dEnd + 1
             else points' == points + [dStart, dEnd] && dStart' == d && dEnd' == d + 1
    ensures Proper(points') && Collecting(t, seen + {c}, points', dStart', dEnd')
  {
    if points' != points {
      ProperAppend(points, dStart, dEnd);
    }
    forall d: int
      ensures Collected(points', dStart', dEnd', d) <==> exists x :: x in seen + {c} && Canon(t, x) == d
    {
      assert Collected(points', dStart', dEnd', d) <==> Collected(points, dStart, dEnd, d) || d == Canon(t, c);
      if Collected(points, dStart, dEnd, d) {
        var x :| x in seen && Canon(t, x) == d;
        assert x in seen + {c};
      }
      assert c in seen + {c};
    }
  }

  lemma {:induction false} MemberHasRun(t: CaseTable, inter: seq<Point>, i: int, c: int)
    requires TableOk(t) && 0 <= i && i + 1 < |inter| && i % 2 == 0 && inter[i] <= c < inter[i + 1]
    requires forall x: int :: In(inter, x) ==> In(t.mask, x)
    ensures RunOf(t.runs, c) >= 0 && 0 <= c <= 0x10_FFFF && 0 <= Canon(t, c) <= 0x10_FFFF
  {
    assert inter[2 * (i / 2)] <= c < inter[2 * (i / 2) + 1];
    assert In(inter, c);
  }

  // The runs are searched upwards from the last one used.
  method FindRun(t: CaseTable, idx0: int, c: int) returns (idx: int)
    requires RunsOk(t.runs) && RunOf(t.runs, c) >= 0 && 0 <= idx0
    requires forall k :: 0 <= k < idx0 && k < |t.runs| ==> t.runs[k].code + t.runs[k].len <= c
    ensures idx0 <= idx < |t.runs| && InRun(t.runs[idx], c)
    ensures forall k :: 0 <= k < idx ==> t.runs[k].code + t.runs[k].len <= c
  {
    ghost var r := RunOf(t.runs, c);
    idx := idx0;
    while !(t.runs[idx].code <= c < t.runs[idx].code + t.runs[idx].len)
      invariant idx0 <= idx <= r
      decreases r - idx
    {
      idx := idx + 1;
    }
    forall k | 0 <= k < idx
      ensures t.runs[k].code + t.runs[k].len <= c
    {
      RunUnique(t.runs, c, idx);
    }
  }
}
