// Character sets as sorted lists of range end points: CharRange of libunicode.h.
// The points p[0], p[1], p[2], ... delimit the half-open ranges [p[0], p[1]), [p[2], p[3]), ...
module CharRange {

  const UINT32_MAX := 0xffff_ffff

  type Point = v: int | 0 <= v <= 0xffff_ffff

  datatype SetOp = Union | Inter | Xor | Sub

  // The set a list of points stands for.
  predicate In(p: seq<Point>, c: int) {
    exists i :: 0 <= i < |p| / 2 && p[2 * i] <= c < p[2 * i + 1]
  }

  predicate Sorted(p: seq<Point>) {
    forall i, j :: 0 <= i < j < |p| ==> p[i] <= p[j]
  }

  predicate StrictlySorted(p: seq<Point>) {
    forall i, j :: 0 <= i < j < |p| ==> p[i] < p[j]
  }

  // Well-formed input of the set operations: whole ranges in increasing order, which may
  // be empty or touch.
  predicate RangeList(p: seq<Point>) {
    |p| % 2 == 0 && Sorted(p)
  }

  // The canonical form of a set: no empty range, no two ranges that touch.
  predicate Canonical(p: seq<Point>) {
    |p| % 2 == 0 && StrictlySorted(p)
  }

  predicate Apply(op: SetOp, inA: bool, inB: bool) {
    match op
    case Union => inA || inB
    case Inter => inA && inB
    case Xor => inA != inB
    case Sub => inA && !inB
  }

  // ---------------------------------------------------------------------------
  // Membership as a parity: c is in the set iff an odd number of points is <= c.

  predicate Odd(p: seq<Point>, c: int) {
    if p == [] then false else Odd(p[..|p| - 1], c) != (p[|p| - 1] <= c)
  }

  lemma {:induction false} OddAppend(p: seq<Point>, v: Point, c: int)
    ensures Odd(p + [v], c) == (Odd(p, c) != (v <= c))
  {
    assert (p + [v])[..|p|] == p;
  }

  lemma {:induction false} OddConcat(p: seq<Point>, q: seq<Point>, c: int)
    ensures Odd(p + q, c) == (Odd(p, c) != Odd(q, c))
    decreases |q|
  {
    if q == [] {
      assert p + q == p;
    } else {
      assert (p + q)[..|p + q| - 1] == p + q[..|q| - 1];
      OddConcat(p, q[..|q| - 1], c);
    }
  }

  // All points <= c: the parity is that of the length. All points > c: even.
  lemma {:induction false} OddOfSmall(p: seq<Point>, c: int)
    requires forall i :: 0 <= i < |p| ==> p[i] <= c
    ensures Odd(p, c) <==> |p| % 2 == 1
  {
    if p != [] {
      OddOfSmall(p[..|p| - 1], c);
    }
  }

  lemma {:induction false} OddOfLarge(p: seq<Point>, c: int)
    requires forall i :: 0 <= i < |p| ==> c < p[i]
    ensures !Odd(p, c)
  {
    if p != [] {
      OddOfLarge(p[..|p| - 1], c);
    }
  }

  lemma {:induction false} InIsOdd(p: seq<Point>, c: int)
    requires RangeList(p)
    ensures In(p, c) <==> Odd(p, c)
    decreases |p|
  {
    if p != [] {
      var q, lo, hi := p[..|p| - 2], p[|p| - 2], p[|p| - 1];
      assert p == q + [lo] + [hi] && lo <= hi;
      InIsOdd(q, c);
      hide In, Odd, RangeList;
      OddAppend(q + [lo], hi, c);
      OddAppend(q, lo, c);
      InAppend(q, lo, hi, c);
      if In(q, c) {
        NotAbove(q, lo, hi, c);
      }
    }
  }

  lemma {:induction false} InAppend(q: seq<Point>, lo: Point, hi: Point, c: int)
    requires |q| % 2 == 0
    ensures In(q + [lo] + [hi], c) <==> In(q, c) || lo <= c < hi
  {
    var p, n := q + [lo] + [hi], |q| / 2;
    if In(q, c) {
      var i :| 0 <= i < |q| / 2 && q[2 * i] <= c < q[2 * i + 1];
      assert p[2 * i] <= c < p[2 * i + 1];
    }
    if lo <= c < hi {
      assert p[2 * n] <= c < p[2 * n + 1];
    }
    if In(p, c) {
      var i :| 0 <= i < |p| / 2 && p[2 * i] <= c < p[2 * i + 1];
      if i < n {
        assert q[2 * i] <= c < q[2 * i + 1];
      }
    }
  }

  // The last range is not below what is in the others.
  lemma {:induction false} NotAbove(q: seq<Point>, lo: Point, hi: Point, c: int)
    requires RangeList(q + [lo] + [hi]) && In(q, c)
    ensures c < lo <= hi
  {
    var p := q + [lo] + [hi];
    var i :| 0 <= i < |q| / 2 && q[2 * i] <= c < q[2 * i + 1];
    assert p[2 * i + 1] <= p[|q|] <= p[|q| + 1];
  }

  // Equal sets have identical canonical arrays.
  lemma {:induction false} SameParitySameList(p: seq<Point>, q: seq<Point>)
    requires StrictlySorted(p) && StrictlySorted(q)
    requires forall c: int :: Odd(p, c) == Odd(q, c)
    ensures p == q
    decreases |p|
  {
    if p == [] && q == [] {
    } else if p == [] || (q != [] && q[0] < p[0]) {
      OddOfFirst(q);
      OddOfLarge(p, q[0]);
      assert false;
    } else if q == [] || p[0] < q[0] {
      OddOfFirst(p);
      OddOfLarge(q, p[0]);
      assert false;
    } else {
      forall c: int
        ensures Odd(p[1..], c) == Odd(q[1..], c)
      {
        assert p == [p[0]] + p[1..] && q == [q[0]] + q[1..];
        OddConcat([p[0]], p[1..], c);
        OddConcat([q[0]], q[1..], c);
      }
      SameParitySameList(p[1..], q[1..]);
      assert p == [p[0]] + p[1..] && q == [q[0]] + q[1..];
    }
  }

  lemma {:induction false} OddOfFirst(p: seq<Point>)
    requires StrictlySorted(p) && p != []
    ensures Odd(p, p[0])
  {
    assert p == [p[0]] + p[1..];
    OddConcat([p[0]], p[1..], p[0]);
    OddOfLarge(p[1..], p[0]);
    OddOfSmall([p[0]], p[0]);
  }

  lemma {:induction false} CanonicalUnique(p: seq<Point>, q: seq<Point>)
    requires Canonical(p) && Canonical(q)
    requires forall c: int :: In(p, c) <==> In(q, c)
    ensures p == q
  {
    forall c: int
      ensures Odd(p, c) == Odd(q, c)
    {
      InIsOdd(p, c);
      InIsOdd(q, c);
    }
    SameParitySameList(p, q);
  }

  // ---------------------------------------------------------------------------
  // cr_compress: merge touching ranges and drop empty ones.

  // The last range that chains onto the range at i: each one starts where the previous ends.
  function ChainEnd(p: seq<Point>, j: nat): (k: nat)
    requires j + 1 < |p|
    ensures j <= k && k + 1 < |p| && (k - j) % 2 == 0
    decreases |p| - j
  {
    if j + 3 < |p| && p[j + 1] == p[j + 2] then ChainEnd(p, j + 2) else j
  }

  function CompressFrom(p: seq<Point>, i: nat): (r: seq<Point>)
    decreases |p| - i
  {
    if i + 1 >= |p| then []
    else if p[i] == p[i + 1] then CompressFrom(p, i + 2)
    else [p[i], p[ChainEnd(p, i) + 1]] + CompressFrom(p, ChainEnd(p, i) + 2)
  }

  function Compress(p: seq<Point>): (r: seq<Point>) {
    CompressFrom(p, 0)
  }

  // The points between the ends of a chain come in equal pairs.
  lemma {:induction false} ChainParity(p: seq<Point>, j: nat, c: int)
    requires j + 1 < |p|
    ensures Odd(p[j + 1..ChainEnd(p, j) + 1], c) == false
    decreases |p| - j
  {
    var k := ChainEnd(p, j);
    if j + 3 < |p| && p[j + 1] == p[j + 2] {
      ChainParity(p, j + 2, c);
      assert p[j + 1..k + 1] == [p[j + 1], p[j + 2]] + p[j + 3..k + 1];
      OddConcat([p[j + 1], p[j + 2]], p[j + 3..k + 1], c);
      OddAppend([p[j + 1]], p[j + 2], c);
      OddAppend([], p[j + 1], c);
      assert [] + [p[j + 1]] == [p[j + 1]];
      assert [p[j + 1]] + [p[j + 2]] == [p[j + 1], p[j + 2]];
    } else {
      assert p[j + 1..k + 1] == [];
    }
  }

  lemma {:induction false} OddSandwich(x: Point, mid: seq<Point>, y: Point, rest: seq<Point>, tail: seq<Point>, c: int)
    requires !Odd(mid, c) && Odd(tail, c) == Odd(rest, c)
    ensures Odd([x, y] + tail, c) == Odd([x] + (mid + ([y] + rest)), c)
  {
    OddConcat([x], mid + ([y] + rest), c);
    OddConcat(mid, [y] + rest, c);
    OddConcat([y], rest, c);
    assert [x, y] + tail == [x] + ([y] + tail);
    OddConcat([x], [y] + tail, c);
    OddConcat([y], tail, c);
  }

  // The two kinds of round of the loop keep the parity at c of the points they consume.
  lemma {:induction false} SkipParity(p: seq<Point>, i: nat, c: int)
    requires i + 1 < |p| && p[i] == p[i + 1]
    ensures Odd(p[i + 2..], c) == Odd(p[i..], c)
  {
    var pair := [p[i], p[i + 1]];
    assert p[i..] == pair + p[i + 2..];
    OddConcat(pair, p[i + 2..], c);
    OddAppend([p[i]], p[i + 1], c);
    OddAppend([], p[i], c);
    assert [p[i]] + [p[i + 1]] == pair && [] + [p[i]] == [p[i]];
  }

  lemma {:induction false} SplitAround(p: seq<Point>, i: nat, k: nat)
    requires i <= k && k + 1 < |p|
    ensures p[i..] == [p[i]] + (p[i + 1..k + 1] + ([p[k + 1]] + p[k + 2..]))
  {
    assert p[i..] == [p[i]] + p[i + 1..];
    assert p[i + 1..] == p[i + 1..k + 1] + p[k + 1..];
    assert p[k + 1..] == [p[k + 1]] + p[k + 2..];
  }

  lemma {:induction false} ChainStepParity(p: seq<Point>, i: nat, k: nat, tail: seq<Point>, r: seq<Point>, c: int)
    requires i <= k && k + 1 < |p| && !Odd(p[i + 1..k + 1], c)
    requires Odd(tail, c) == Odd(p[k + 2..], c) && r == [p[i], p[k + 1]] + tail
    ensures Odd(r, c) == Odd(p[i..], c)
  {
    hide Odd;
    var mid, rest := p[i + 1..k + 1], p[k + 2..];
    OddSandwich(p[i], mid, p[k + 1], rest, tail, c);
    SplitAround(p, i, k);
    assert p[i..] == [p[i]] + (mid + ([p[k + 1]] + rest));
  }

  lemma {:induction false} CompressFromParity(p: seq<Point>, i: nat, c: int)
    requires |p| % 2 == 0 && i <= |p| && i % 2 == 0
    ensures Odd(CompressFrom(p, i), c) == Odd(p[i..], c)
    decreases |p| - i
  {
    if i + 1 >= |p| {
      assert p[i..] == [];
    } else {
      hide Odd, CompressFrom, ChainEnd;
      CompressStep(p, i);
      if p[i] == p[i + 1] {
        CompressFromParity(p, i + 2, c);
        SkipParity(p, i, c);
      } else {
        var k := ChainEnd(p, i);
        var tail := CompressFrom(p, k + 2);
        ChainParity(p, i, c);
        CompressFromParity(p, k + 2, c);
        ChainStepParity(p, i, k, tail, CompressFrom(p, i), c);
      }
    }
  }

  // A round of the loop skips an empty range or joins the ranges that touch.
  lemma {:induction false} CompressStep(p: seq<Point>, i: nat)
    requires |p| % 2 == 0 && i + 1 < |p| && i % 2 == 0
    ensures p[i] == p[i + 1] ==> CompressFrom(p, i) == CompressFrom(p, i + 2)
    ensures p[i] != p[i + 1] ==>
              var k := ChainEnd(p, i);
              i <= k && k % 2 == 0 && k + 1 < |p| && CompressFrom(p, i) == [p[i], p[k + 1]] + CompressFrom(p, k + 2)
  {
  }

  predicate AtLeast(p: seq<Point>, v: int) {
    forall k :: 0 <= k < |p| ==> v <= p[k]
  }

  lemma {:induction false} ConsRange(lo: Point, hi: Point, tail: seq<Point>, r: seq<Point>)
    requires lo < hi && Canonical(tail) && AtLeast(tail, (hi as int) + 1) && r == [lo, hi] + tail
    ensures Canonical(r) && AtLeast(r, lo)
  {
    forall i, j | 0 <= i < j < |r|
      ensures r[i] < r[j]
    {
      assert j >= 2 ==> r[j] == tail[j - 2];
    }
  }

  lemma {:induction false} PointsInOrder(p: seq<Point>, i: nat, j: nat)
    requires RangeList(p) && i <= j < |p|
    ensures p[i] <= p[j]
  {
  }

  // Behind a chain of ranges that touch there is a gap.
  lemma {:induction false} ChainGap(p: seq<Point>, j: nat)
    requires j + 1 < |p|
    ensures var k := ChainEnd(p, j); k + 3 < |p| ==> p[k + 1] != p[k + 2]
    decreases |p| - j
  {
    if j + 3 < |p| && p[j + 1] == p[j + 2] {
      ChainGap(p, j + 2);
    }
  }

  lemma {:induction false} AtLeastMono(p: seq<Point>, v: int, w: int)
    requires AtLeast(p, w) && v <= w
    ensures AtLeast(p, v)
  {
  }

  lemma {:induction false} AtLeastNone(v: int)
    ensures AtLeast([], v)
  {
  }

  // What is made of the ranges from i on is canonical and starts no earlier than they do.
  ghost predicate Compressed(p: seq<Point>, i: nat) {
    var r := CompressFrom(p, i);
    Canonical(r) && if i < |p| then AtLeast(r, p[i]) else r == []
  }

  lemma {:induction false} CompressFromCanonical(p: seq<Point>, i: nat)
    requires RangeList(p) && i <= |p| && i % 2 == 0
    ensures Compressed(p, i)
    decreases |p| - i
  {
    if i < |p| {
      hide Compressed, CompressFrom, ChainEnd, Sorted, Canonical, AtLeast;
      if p[i] == p[i + 1] {
        CompressFromCanonical(p, i + 2);
        SkippedCanonical(p, i);
      } else {
        CompressStep(p, i);
        CompressFromCanonical(p, ChainEnd(p, i) + 2);
        ChainCanonical(p, i);
      }
    }
  }

  lemma {:induction false} SkippedCanonical(p: seq<Point>, i: nat)
    requires RangeList(p) && i + 1 < |p| && i % 2 == 0 && p[i] == p[i + 1] && Compressed(p, i + 2)
    ensures Compressed(p, i)
  {
    CompressStep(p, i);
    hide CompressFrom, ChainEnd, Canonical, Sorted, AtLeast;
    if i + 2 < |p| {
      PointsInOrder(p, i, i + 2);
      AtLeastMono(CompressFrom(p, i + 2), p[i], p[i + 2]);
    } else {
      AtLeastNone(p[i]);
    }
  }

  lemma {:induction false} ChainCanonical(p: seq<Point>, i: nat)
    requires RangeList(p) && i + 1 < |p| && i % 2 == 0 && p[i] != p[i + 1] && Compressed(p, ChainEnd(p, i) + 2)
    ensures Compressed(p, i)
  {
    hide CompressFrom, ChainEnd, Canonical, Sorted, AtLeast;
    CompressStep(p, i);
    var k := ChainEnd(p, i);
    var tail, lo, hi := CompressFrom(p, k + 2), p[i], p[k + 1];
    PointsInOrder(p, i, i + 1);
    PointsInOrder(p, i + 1, k + 1);
    AfterChain(p, i, tail);
    ConsRange(lo, hi, tail, CompressFrom(p, i));
  }

  lemma {:induction false} AfterChain(p: seq<Point>, i: nat, tail: seq<Point>)
    requires RangeList(p) && i + 1 < |p| && i % 2 == 0
    requires var k := ChainEnd(p, i); if k + 2 < |p| then AtLeast(tail, p[k + 2]) else tail == []
    ensures AtLeast(tail, (p[ChainEnd(p, i) + 1] as int) + 1)
  {
    hide ChainEnd, Sorted, AtLeast;
    var k := ChainEnd(p, i);
    if k + 2 < |p| {
      ChainGap(p, i);
      PointsInOrder(p, k + 1, k + 2);
      AtLeastMono(tail, (p[k + 1] as int) + 1, p[k + 2]);
    } else {
      AtLeastNone((p[k + 1] as int) + 1);
    }
  }

  // Main result of cr_compress: the canonical list of the same set.
  lemma {:induction false} CompressCorrect(p: seq<Point>)
    requires RangeList(p)
    ensures Canonical(Compress(p))
    ensures forall c: int :: Odd(Compress(p), c) == Odd(p, c)
    ensures forall c: int :: In(Compress(p), c) <==> In(p, c)
  {
    CompressFromCanonical(p, 0);
    forall c: int
      ensures Odd(Compress(p), c) == Odd(p, c) && (In(Compress(p), c) <==> In(p, c))
    {
      CompressFromParity(p, 0, c);
      assert p[0..] == p;
      InIsOdd(p, c);
      InIsOdd(Compress(p), c);
    }
  }

  // ---------------------------------------------------------------------------
  // cr_op: merge two lists, adding a point whenever the status changes.

  // One round of the loop: the next smallest point is taken from a, from b or from both.
  function MergeStep(op: SetOp, a: seq<Point>, b: seq<Point>, i: nat, j: nat, out: seq<Point>)
    : (r: (nat, nat, seq<Point>))
    requires i <= |a| && j <= |b| && (i < |a| || j < |b|)
    ensures i <= r.0 <= |a| && j <= r.1 <= |b| && i + j < r.0 + r.1
  {
    var takeA := i < |a| && (j == |b| || a[i] <= b[j]);
    var takeB := j < |b| && (i == |a| || b[j] <= a[i]);
    var v := if takeA then a[i] else b[j];
    var i' := if takeA then i + 1 else i;
    var j' := if takeB then j + 1 else j;
    var isIn := Apply(op, i' % 2 == 1, j' % 2 == 1);
    (i', j', if isIn != (|out| % 2 == 1) then out + [v] else out)
  }

  function Merge(op: SetOp, a: seq<Point>, b: seq<Point>, i: nat, j: nat, out: seq<Point>): (r: seq<Point>)
    requires i <= |a| && j <= |b|
    decreases |a| - i + |b| - j
  {
    if i == |a| && j == |b| then out
    else
      var (i', j', out') := MergeStep(op, a, b, i, j, out);
      Merge(op, a, b, i', j', out')
  }

  function Op(op: SetOp, a: seq<Point>, b: seq<Point>): (r: seq<Point>) {
    Compress(Merge(op, a, b, 0, 0, []))
  }

  // Points consumed or emitted are behind the points still to come, and the number of
  // points emitted has the parity the operation prescribes.
  predicate MergeInv(op: SetOp, a: seq<Point>, b: seq<Point>, i: nat, j: nat, out: seq<Point>)
    requires i <= |a| && j <= |b|
  {
    && Sorted(out)
    && (forall k :: 0 <= k < |out| ==> (i < |a| ==> out[k] <= a[i]) && (j < |b| ==> out[k] <= b[j]))
    && (forall k :: 0 <= k < i ==> (j < |b| ==> a[k] <= b[j]))
    && (forall k :: 0 <= k < j ==> (i < |a| ==> b[k] <= a[i]))
    && (|out| % 2 == 1 <==> Apply(op, i % 2 == 1, j % 2 == 1))
  }

  lemma {:induction false} MergeStepInv(op: SetOp, a: seq<Point>, b: seq<Point>, i: nat, j: nat, out: seq<Point>)
    requires Sorted(a) && Sorted(b) && i <= |a| && j <= |b| && (i < |a| || j < |b|)
    requires MergeInv(op, a, b, i, j, out)
    ensures var s := MergeStep(op, a, b, i, j, out); MergeInv(op, a, b, s.0, s.1, s.2)
  {
  }

  lemma {:induction false} MergeStepParityBefore(op: SetOp, a: seq<Point>, b: seq<Point>, i: nat, j: nat, out: seq<Point>, c: int)
    requires i <= |a| && j <= |b| && (i < |a| || j < |b|)
    requires var s := MergeStep(op, a, b, i, j, out); c < if s.0 > i then a[i] else b[j]
    ensures var s := MergeStep(op, a, b, i, j, out);
            Odd(s.2, c) == Odd(out, c) && Odd(a[..s.0], c) == Odd(a[..i], c) && Odd(b[..s.1], c) == Odd(b[..j], c)
  {
    var (i', j', out') := MergeStep(op, a, b, i, j, out);
    if i' > i {
      assert a[..i'] == a[..i] + [a[i]];
      OddAppend(a[..i], a[i], c);
    }
    if j' > j {
      assert b[..j'] == b[..j] + [b[j]];
      OddAppend(b[..j], b[j], c);
    }
    OddAppend(out, if i' > i then a[i] else b[j], c);
  }

  lemma {:induction false} MergeStepParityAfter(op: SetOp, a: seq<Point>, b: seq<Point>, i: nat, j: nat, out: seq<Point>, c: int)
    requires Sorted(a) && Sorted(b) && i <= |a| && j <= |b| && (i < |a| || j < |b|)
    requires MergeInv(op, a, b, i, j, out)
    requires var s := MergeStep(op, a, b, i, j, out); c >= if s.0 > i then a[i] else b[j]
    ensures var s := MergeStep(op, a, b, i, j, out);
            Odd(s.2, c) == Apply(op, Odd(a[..s.0], c), Odd(b[..s.1], c))
  {
    var (i', j', out') := MergeStep(op, a, b, i, j, out);
    MergeStepBehind(op, a, b, i, j, out);
    OddOfSmall(out', c);
    OddOfSmall(a[..i'], c);
    OddOfSmall(b[..j'], c);
  }

  // The point just taken bounds everything consumed and emitted.
  lemma {:induction false} MergeStepBehind(op: SetOp, a: seq<Point>, b: seq<Point>, i: nat, j: nat, out: seq<Point>)
    requires Sorted(a) && Sorted(b) && i <= |a| && j <= |b| && (i < |a| || j < |b|)
    requires MergeInv(op, a, b, i, j, out)
    ensures var s := MergeStep(op, a, b, i, j, out);
            var v := if s.0 > i then a[i] else b[j];
            && (forall k :: 0 <= k < |s.2| ==> s.2[k] <= v)
            && (forall k :: 0 <= k < s.0 ==> a[k] <= v)
            && (forall k :: 0 <= k < s.1 ==> b[k] <= v)
            && (|s.2| % 2 == 1 <==> Apply(op, s.0 % 2 == 1, s.1 % 2 == 1))
  {
  }

  lemma {:induction false} MergeSorted(op: SetOp, a: seq<Point>, b: seq<Point>, i: nat, j: nat, out: seq<Point>)
    requires RangeList(a) && RangeList(b) && i <= |a| && j <= |b|
    requires MergeInv(op, a, b, i, j, out)
    ensures RangeList(Merge(op, a, b, i, j, out))
    decreases |a| - i + |b| - j
  {
    if i < |a| || j < |b| {
      MergeStepInv(op, a, b, i, j, out);
      var (i', j', out') := MergeStep(op, a, b, i, j, out);
      MergeSorted(op, a, b, i', j', out');
    }
  }

  lemma {:induction false} MergeParity(op: SetOp, a: seq<Point>, b: seq<Point>, i: nat, j: nat, out: seq<Point>, c: int)
    requires Sorted(a) && Sorted(b) && i <= |a| && j <= |b|
    requires MergeInv(op, a, b, i, j, out)
    requires Odd(out, c) == Apply(op, Odd(a[..i], c), Odd(b[..j], c))
    ensures Odd(Merge(op, a, b, i, j, out), c) == Apply(op, Odd(a, c), Odd(b, c))
    decreases |a| - i + |b| - j
  {
    if i == |a| && j == |b| {
      assert a[..i] == a && b[..j] == b;
    } else {
      MergeStepInv(op, a, b, i, j, out);
      var (i', j', out') := MergeStep(op, a, b, i, j, out);
      if c < (if i' > i then a[i] else b[j]) {
        MergeStepParityBefore(op, a, b, i, j, out, c);
      } else {
        MergeStepParityAfter(op, a, b, i, j, out, c);
      }
      MergeParity(op, a, b, i', j', out', c);
    }
  }

  // Main result of cr_op: the canonical list of the set the operation names.
  lemma {:induction false} OpCorrect(op: SetOp, a: seq<Point>, b: seq<Point>)
    requires RangeList(a) && RangeList(b)
    ensures Canonical(Op(op, a, b))
    ensures forall c: int :: In(Op(op, a, b), c) <==> Apply(op, In(a, c), In(b, c))
  {
    MergeSorted(op, a, b, 0, 0, []);
    CompressCorrect(Merge(op, a, b, 0, 0, []));
    forall c: int
      ensures In(Op(op, a, b), c) <==> Apply(op, In(a, c), In(b, c))
    {
      MergeParity(op, a, b, 0, 0, [], c);
      InIsOdd(a, c);
      InIsOdd(b, c);
      InIsOdd(Op(op, a, b), c);
    }
  }

  // ---------------------------------------------------------------------------
  // cr_invert

  function Invert(p: seq<Point>): (r: seq<Point>) {
    Compress([0] + p + [UINT32_MAX])
  }

  lemma {:induction false} InvertCorrect(p: seq<Point>)
    requires RangeList(p)
    ensures Canonical(Invert(p))
    ensures forall c :: 0 <= c < UINT32_MAX ==> (In(Invert(p), c) <==> !In(p, c))
    ensures forall c :: !(0 <= c < UINT32_MAX) ==> !In(Invert(p), c)
  {
    var q: seq<Point> := [0] + p + [UINT32_MAX];
    assert RangeList(q);
    CompressCorrect(q);
    forall c: int
      ensures In(Invert(p), c) <==> 0 <= c < UINT32_MAX && !In(p, c)
    {
      InIsOdd(p, c);
      InIsOdd(Invert(p), c);
      OddConcat([0] + p, [UINT32_MAX], c);
      OddConcat([0], p, c);
      assert In(p, c) ==> c < UINT32_MAX;
    }
  }
}
