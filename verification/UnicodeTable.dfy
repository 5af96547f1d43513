// The compressed property tables of libunicode.c: run lengths in a byte table, with an index
// into it for looking up single characters.
module UnicodeTable {
  import opened Bytes
  import opened CharRange
  import opened CharSet

  // ---------------------------------------------------------------------------
  // The set a table stands for: runs of characters that are alternately out and in.

  // Bytes an item takes: two packed lengths or a 7-bit length in one byte, 13 bits in two,
  // 21 bits in three.
  function ItemSize(b: Byte): (n: nat) {
    if b < 0x40 || b >= 0x80 then 1 else if b < 0x60 then 2 else 3
  }

  predicate ItemFits(t: seq<Byte>, p: nat) {
    p < |t| && p + ItemSize(t[p]) <= |t|
  }

  // The lengths of the runs of an item. None is empty.
  function ItemRuns(t: seq<Byte>, p: nat): (r: seq<nat>)
    requires ItemFits(t, p)
    ensures 1 <= |r| <= 2 && forall k :: 0 <= k < |r| ==> r[k] > 0
  {
    var b: int := t[p];
    if b < 0x40 then [b / 8 + 1, b % 8 + 1]
    else if b >= 0x80 then [b - 0x80 + 1]
    else if b < 0x60 then [(b - 0x40) * 0x100 + t[p + 1] as int + 1]
    else [(b - 0x60) * 0x1_0000 + t[p + 1] as int * 0x100 + t[p + 2] as int + 1]
  }

  // Whole items from p to the end.
  predicate Items(t: seq<Byte>, p: nat)
    decreases |t| - p
  {
    p == |t| || (ItemFits(t, p) && Items(t, p + ItemSize(t[p])))
  }

  function Runs(t: seq<Byte>, p: nat): (r: seq<nat>)
    requires Items(t, p)
    ensures forall k :: 0 <= k < |r| ==> r[k] > 0
    decreases |t| - p
  {
    if p == |t| then [] else ItemRuns(t, p) + Runs(t, p + ItemSize(t[p]))
  }

  function Sum(runs: seq<nat>): (s: nat) {
    if runs == [] then 0 else runs[0] + Sum(runs[1..])
  }

  // Is c in the set, where the runs start at "start" and the first one is in it if "bit"?
  predicate Member(runs: seq<nat>, start: nat, bit: bool, c: nat) {
    runs != [] && if c < start + runs[0] then bit else Member(runs[1..], start + runs[0], !bit, c)
  }

  predicate InTable(t: seq<Byte>, c: nat)
    requires Items(t, 0)
  {
    Member(Runs(t, 0), 0, false, c)
  }

  // ---------------------------------------------------------------------------
  // Positions inside a table

  // Decoding the table from p0 on comes to p.
  ghost predicate Reaches(t: seq<Byte>, p0: nat, code0: nat, bit0: bool, p: nat, code: nat, bit: bool)
    requires Items(t, p0)
    decreases |t| - p0
  {
    || (p0 == p && code0 == code && bit0 == bit)
    || (p0 < |t| && Reaches(t, p0 + ItemSize(t[p0]), code0 + Sum(ItemRuns(t, p0)), bit0 != (|ItemRuns(t, p0)| == 1), p, code, bit))
  }

  lemma {:induction false} SumConcat(a: seq<nat>, b: seq<nat>)
    ensures Sum(a + b) == Sum(a) + Sum(b)
  {
    if a == [] {
      assert a + b == b;
    } else {
      assert (a + b)[1..] == a[1..] + b;
      SumConcat(a[1..], b);
    }
  }

  // The runs of an item are passed one by one.
  lemma {:induction false} MemberSkip(a: seq<nat>, b: seq<nat>, start: nat, bit: bool, c: nat)
    requires c >= start + Sum(a)
    ensures Member(a + b, start, bit, c) == Member(b, start + Sum(a), bit != (|a| % 2 == 1), c)
  {
    if a == [] {
      assert a + b == b;
    } else {
      assert (a + b)[1..] == a[1..] + b;
      MemberSkip(a[1..], b, start + a[0], !bit, c);
    }
  }

  // From a position that decoding comes to, the rest decides about the characters beyond it.
  lemma {:induction false} MemberFrom(t: seq<Byte>, p0: nat, code0: nat, bit0: bool, p: nat, code: nat, bit: bool, c: nat)
    requires Items(t, p0) && Reaches(t, p0, code0, bit0, p, code, bit) && c >= code
    ensures code0 <= code && Items(t, p) && Member(Runs(t, p0), code0, bit0, c) == Member(Runs(t, p), code, bit, c)
    ensures code0 + Sum(Runs(t, p0)) == code + Sum(Runs(t, p))
    decreases |t| - p0
  {
    hide Member, Sum, ItemRuns, ItemSize, ItemFits;
    if !(p0 == p && code0 == code && bit0 == bit) {
      RunsStep(t, p0);
      var a, p1 := ItemRuns(t, p0), p0 + ItemSize(t[p0]);
      var b := Runs(t, p1);
      MemberFrom(t, p1, code0 + Sum(a), bit0 != (|a| == 1), p, code, bit, c);
      hide Reaches, Items, Runs;
      SumConcat(a, b);
      MemberSkip(a, b, code0, bit0, c);
    }
  }

  lemma {:induction false} RunsStep(t: seq<Byte>, p: nat)
    requires Items(t, p) && p < |t|
    ensures ItemFits(t, p) && Items(t, p + ItemSize(t[p])) && Runs(t, p) == ItemRuns(t, p) + Runs(t, p + ItemSize(t[p]))
    ensures 1 <= |ItemRuns(t, p)| <= 2
  {
  }

  // ---------------------------------------------------------------------------
  // The index

  const BLOCK_LEN := 32
  const CODE_LIMIT := 0x20_0000

  // get_le24
  function GetLe24(b: seq<Byte>, pos: nat): (v: nat)
    requires pos + 3 <= |b|
  {
    (b[pos] as int) + 0x100 * (b[pos + 1] as int) + 0x1_0000 * (b[pos + 2] as int)
  }

  function Entry(index: seq<Byte>, i: nat): (v: nat)
    requires 3 * i + 3 <= |index|
  {
    GetLe24(index, 3 * i)
  }

  function CodeOf(index: seq<Byte>, i: nat): (c: nat)
    requires 3 * i + 3 <= |index|
  {
    Entry(index, i) % CODE_LIMIT
  }

  function PosOf(index: seq<Byte>, i: nat): (p: nat)
    requires 3 * i + 3 <= |index|
  {
    (i + 1) * BLOCK_LEN + Entry(index, i) / CODE_LIMIT
  }

  predicate IndexSorted(index: seq<Byte>, n: nat) {
    1 <= n && |index| == 3 * n && forall i, j :: 0 <= i <= j < n ==> CodeOf(index, i) <= CodeOf(index, j)
  }

  // The entries are positions between two items where a run out of the set starts; the last
  // one is the end of the table.
  ghost predicate IndexOk(t: seq<Byte>, index: seq<Byte>, n: nat) {
    && Items(t, 0) && IndexSorted(index, n)
    && (forall i :: 0 <= i < n - 1 ==> Reaches(t, 0, 0, false, PosOf(index, i), CodeOf(index, i), false))
    && Entry(index, n - 1) == Sum(Runs(t, 0)) && Sum(Runs(t, 0)) < CODE_LIMIT
  }

  lemma {:induction false} EntryIs(index: seq<Byte>, n: nat, i: nat)
    requires IndexSorted(index, n) && i < n
    ensures 3 * i + 3 <= |index| && GetLe24(index, i * 3) == Entry(index, i)
    ensures CodeOf(index, i) == Entry(index, i) % CODE_LIMIT
  {
    hide GetLe24;
  }

  lemma {:induction false} FirstBelowLast(index: seq<Byte>, n: nat)
    requires IndexSorted(index, n)
    ensures |index| == 3 * n && n >= 1 && CodeOf(index, 0) <= CodeOf(index, n - 1)
  {
    hide CodeOf;
  }

  // get_index_pos: the last entry not beyond c, by binary search.
  method GetIndexPos(c: nat, index: seq<Byte>, n: nat) returns (pos: int, code: nat)
    requires IndexSorted(index, n) && Entry(index, n - 1) < CODE_LIMIT
    ensures pos < 0 <==> c >= CodeOf(index, n - 1)
    ensures pos >= 0 ==>
              || (pos == 0 && code == 0 && c < CodeOf(index, 0))
              || (exists i :: 0 <= i < n - 1 && pos == PosOf(index, i) && code == CodeOf(index, i) && code <= c < CodeOf(index, i + 1))
  {
    hide IndexSorted, GetLe24, Entry;
    FirstBelowLast(index, n);
    var idxMin := 0;
    EntryIs(index, n, 0);
    var v := GetLe24(index, 0);
    code := v % CODE_LIMIT;
    if c < code {
      return 0, 0;
    }
    var idxMax := n - 1;
    EntryIs(index, n, idxMax);
    code := GetLe24(index, idxMax * 3);
    if c >= code {
      return -1, code;
    }
    while idxMax - idxMin > 1
      invariant 0 <= idxMin < idxMax < n && CodeOf(index, idxMin) <= c < CodeOf(index, idxMax)
    {
      hide CodeOf;
      var idx := (idxMax + idxMin) / 2;
      EntryIs(index, n, idx);
      v := GetLe24(index, idx * 3);
      code := v % CODE_LIMIT;
      if c < code {
        idxMax := idx;
      } else {
        idxMin := idx;
      }
    }
    hide CodeOf;
    EntryIs(index, n, idxMin);
    v := GetLe24(index, idxMin * 3);
    code := v % CODE_LIMIT;
    pos := (idxMin + 1) * BLOCK_LEN + v / CODE_LIMIT;
  }

  // ---------------------------------------------------------------------------
  // Looking up a character

  lemma {:induction false} ItemMember(t: seq<Byte>, p: nat, code: nat, bit: bool, c: nat)
    requires Items(t, p) && code <= c < code + Sum(Runs(t, p))
    ensures p < |t|
    ensures var a, p1 := ItemRuns(t, p), p + ItemSize(t[p]);
            && (c < code + a[0] ==> Member(Runs(t, p), code, bit, c) == bit)
            && (|a| == 2 && code + a[0] <= c < code + a[0] + a[1] ==> Member(Runs(t, p), code, bit, c) == !bit)
            && (c >= code + Sum(a) ==>
                  && Member(Runs(t, p), code, bit, c) == Member(Runs(t, p1), code + Sum(a), bit != (|a| == 1), c)
                  && c < code + Sum(a) + Sum(Runs(t, p1)))
            && Sum(a) == a[0] + if |a| == 2 then a[1] else 0
  {
    assert p < |t|;
    var a, p1 := ItemRuns(t, p), p + ItemSize(t[p]);
    var r := Runs(t, p1);
    SumConcat(a, r);
    if |a| == 2 {
      assert a == [a[0], a[1]] && (a + r)[1..] == [a[1]] + r && a[1..] == [a[1]];
      assert Sum(a[1..][1..]) == 0;
    } else {
      assert Sum(a[1..]) == 0;
    }
    if c >= code + Sum(a) {
      MemberSkip(a, r, code, bit, c);
    }
  }

  // lre_is_in_table: the indexed lookup finds what decoding from the start finds.
  method IsInTable(c: nat, table: seq<Byte>, index: seq<Byte>, n: nat) returns (r: bool)
    requires IndexOk(table, index, n)
    ensures r == InTable(table, c)
  {
    hide Runs, Member, Sum, Reaches, Items, CodeOf, PosOf, ItemRuns;
    var pos, code := GetIndexPos(c, index, n);
    if pos < 0 {
      BeyondEnd(table, index, n, c);
      return false;
    }
    IndexedStart(table, index, n, c, pos, code);
    var p, bit := pos, false;
    r := ScanFrom(table, p, code, bit, c);
  }

  lemma {:induction false} LastCode(t: seq<Byte>, index: seq<Byte>, n: nat)
    requires IndexOk(t, index, n)
    ensures CodeOf(index, n - 1) == Sum(Runs(t, 0)) && Entry(index, n - 1) < CODE_LIMIT
  {
    hide Runs, Sum;
  }

  lemma {:induction false} BeyondEnd(t: seq<Byte>, index: seq<Byte>, n: nat, c: nat)
    requires IndexOk(t, index, n) && c >= CodeOf(index, n - 1)
    ensures !InTable(t, c)
  {
    hide Reaches;
    LastCode(t, index, n);
    MemberSkip(Runs(t, 0), [], 0, false, c);
    assert Runs(t, 0) + [] == Runs(t, 0);
  }

  // At the position of the index the rest of the table decides.
  lemma {:induction false} IndexedStart(t: seq<Byte>, index: seq<Byte>, n: nat, c: nat, pos: nat, code: nat)
    requires IndexOk(t, index, n) && c < CodeOf(index, n - 1)
    requires || (pos == 0 && code == 0)
             || (exists i :: 0 <= i < n - 1 && pos == PosOf(index, i) && code == CodeOf(index, i) && code <= c)
    ensures code <= c && Items(t, pos) && Member(Runs(t, pos), code, false, c) == InTable(t, c) && c < code + Sum(Runs(t, pos))
  {
    hide Runs, Member, Sum, Reaches, Items;
    LastCode(t, index, n);
    if !(pos == 0 && code == 0) {
      var i :| 0 <= i < n - 1 && pos == PosOf(index, i) && code == CodeOf(index, i) && code <= c;
      MemberFrom(t, 0, 0, false, pos, code, false, c);
    }
  }

  // The loop of lre_is_in_table.
  method ScanFrom(table: seq<Byte>, p0: nat, code0: nat, bit0: bool, c: nat) returns (r: bool)
    requires Items(table, p0) && code0 <= c < code0 + Sum(Runs(table, p0))
    ensures r == Member(Runs(table, p0), code0, bit0, c)
  {
    hide Runs, Member, Sum;
    var p: nat, code: nat, bit := p0, code0, bit0;
    while true
      invariant Items(table, p) && code <= c < code + Sum(Runs(table, p))
      invariant Member(Runs(table, p), code, bit, c) == Member(Runs(table, p0), code0, bit0, c)
      decreases |table| - p
    {
      ItemMember(table, p, code, bit, c);
      var b: int := table[p];
      p := p + 1;
      if b < 64 {
        code := code + b / 8 + 1;
        if c < code {
          return bit;
        }
        bit := !bit;
        code := code + b % 8 + 1;
      } else if b >= 0x80 {
        code := code + b - 0x80 + 1;
      } else if b < 0x60 {
        code := code + (b - 0x40) * 0x100 + table[p] as int + 1;
        p := p + 1;
      } else {
        code := code + (b - 0x60) * 0x1_0000 + table[p] as int * 0x100 + table[p + 1] as int + 1;
        p := p + 2;
      }
      if c < code {
        return bit;
      }
      bit := !bit;
    }
  }

  // ---------------------------------------------------------------------------
  // Expanding a table

  // The ranges of the runs that are in the set.
  function Intervals(runs: seq<nat>, start: nat, bit: bool): (p: seq<Point>)
    requires start + Sum(runs) <= UINT32_MAX
  {
    if runs == [] then []
    else (if bit then [start, start + runs[0]] else []) + Intervals(runs[1..], start + runs[0], !bit)
  }

  lemma {:induction false} IntervalsStep(runs: seq<nat>, start: nat, bit: bool)
    requires start + Sum(runs) <= UINT32_MAX
    ensures runs == [] ==> Sum(runs) == 0 && Intervals(runs, start, bit) == []
    ensures runs != [] ==>
              && Sum(runs) == runs[0] + Sum(runs[1..])
              && Intervals(runs, start, bit) ==
                 (if bit then [start, start + runs[0]] else []) + Intervals(runs[1..], start + runs[0], !bit)
  {
  }

  lemma {:induction false} IntervalsConcat(a: seq<nat>, b: seq<nat>, start: nat, bit: bool)
    requires start + Sum(a) + Sum(b) <= UINT32_MAX
    ensures Sum(a + b) == Sum(a) + Sum(b)
    ensures Intervals(a + b, start, bit) == Intervals(a, start, bit) + Intervals(b, start + Sum(a), bit != (|a| % 2 == 1))
  {
    hide Sum, Intervals;
    SumConcat(a, b);
    IntervalsStep(a, start, bit);
    if a == [] {
      assert a + b == b;
      var x := Intervals(b, start, bit);
      assert [] + x == x;
    } else {
      assert (a + b)[1..] == a[1..] + b;
      IntervalsStep(a + b, start, bit);
      IntervalsConcat(a[1..], b, start + a[0], !bit);
      var head: seq<Point> := if bit then [start, start + a[0]] else [];
      var x, y := Intervals(a[1..], start + a[0], !bit), Intervals(b, start + Sum(a), bit != (|a| % 2 == 1));
      assert head + (x + y) == head + x + y;
    }
  }

  predicate AllPositive(runs: seq<nat>) {
    forall k :: 0 <= k < |runs| ==> runs[k] > 0
  }

  // The ranges are in canonical form, and the set is that of the runs.
  lemma {:induction false} IntervalsDenote(runs: seq<nat>, start: nat, bit: bool, c: nat)
    requires start + Sum(runs) <= UINT32_MAX && AllPositive(runs)
    ensures var p := Intervals(runs, start, bit);
            && Canonical(p) && (forall k :: 0 <= k < |p| ==> if bit then start <= p[k] else start < p[k])
            && (c >= start ==> Odd(p, c) == Member(runs, start, bit, c))
            && (c < start ==> !Odd(p, c))
  {
    hide Intervals, Sum, Odd;
    IntervalsStep(runs, start, bit);
    if runs == [] {
      OddOfSmall([], c);
    } else {
      var mid := start + runs[0];
      var p := Intervals(runs[1..], mid, !bit);
      IntervalsDenote(runs[1..], mid, !bit, c);
      if bit {
        var head: seq<Point> := [start, mid];
        OddConcat(head, p, c);
        OddPair(start, mid, c);
      } else {
        assert [] + p == p;
      }
    }
  }

  lemma {:induction false} OddPair(x: Point, y: Point, c: int)
    requires x < y
    ensures Odd([x, y], c) == (x <= c < y)
  {
    OddAppend([x], y, c);
    OddAppend([], x, c);
    assert [] + [x] == [x] && [x] + [y] == [x, y];
  }

  // unicode_prop1: the ranges of a table are appended to the points.
  method ExpandTable(cr: CharRangeBuffer, table: seq<Byte>)
    requires Items(table, 0) && Sum(Runs(table, 0)) <= UINT32_MAX
    modifies cr
    ensures cr.points == old(cr.points) + Intervals(Runs(table, 0), 0, false)
  {
    hide Runs, Intervals, Sum;
    var p: nat, c: nat, bit := 0, 0, false;
    ghost var all: seq<Point>, done: seq<Point> := Intervals(Runs(table, 0), 0, false), [];
    assert cr.points + done == cr.points && done + all == all;
    while p < |table|
      invariant Items(table, p) && c + Sum(Runs(table, p)) <= UINT32_MAX && p <= |table|
      invariant all == done + Intervals(Runs(table, p), c, bit) && cr.points == old(cr.points) + done
    {
      ghost var piece := ItemIntervals(table, p, c, bit);
      p, c, bit := ExpandItem(cr, table, p, c, bit);
      done := done + piece;
    }
    NothingLeft(table, p, c, bit);
  }

  lemma {:induction false} NothingLeft(t: seq<Byte>, p: nat, c: nat, bit: bool)
    requires p == |t| && c <= UINT32_MAX
    ensures Runs(t, p) == [] && Sum(Runs(t, p)) == 0 && Intervals(Runs(t, p), c, bit) == []
  {
  }

  // The ranges of one item, and the rest.
  lemma {:induction false} ItemIntervals(t: seq<Byte>, p: nat, c: nat, bit: bool) returns (piece: seq<Point>)
    requires Items(t, p) && p < |t| && c + Sum(Runs(t, p)) <= UINT32_MAX
    ensures var a, p1 := ItemRuns(t, p), p + ItemSize(t[p]);
            && Items(t, p1) && c + Sum(a) + Sum(Runs(t, p1)) <= UINT32_MAX
            && piece == Intervals(a, c, bit)
            && Intervals(Runs(t, p), c, bit) == piece + Intervals(Runs(t, p1), c + Sum(a), bit != (|a| == 1))
  {
    var a, p1 := ItemRuns(t, p), p + ItemSize(t[p]);
    SumConcat(a, Runs(t, p1));
    IntervalsConcat(a, Runs(t, p1), c, bit);
    piece := Intervals(a, c, bit);
  }

  // The body of the loop: one item.
  method ExpandItem(cr: CharRangeBuffer, table: seq<Byte>, p0: nat, c1: nat, bit0: bool) returns (p: nat, c: nat, bit: bool)
    requires ItemFits(table, p0) && c1 + Sum(ItemRuns(table, p0)) <= UINT32_MAX
    modifies cr
    ensures p == p0 + ItemSize(table[p0]) && c == c1 + Sum(ItemRuns(table, p0)) && bit == (bit0 != (|ItemRuns(table, p0)| == 1))
    ensures cr.points == old(cr.points) + Intervals(ItemRuns(table, p0), c1, bit0)
  {
    ghost var a := ItemRuns(table, p0);
    ShortIntervals(a, c1, bit0);
    hide Intervals, Sum;
    p, c, bit := p0, c1, bit0;
    var c0 := c;
    var b: int := table[p];
    p := p + 1;
    if b < 64 {
      assert a == [b / 8 + 1, b % 8 + 1];
      c := c + b / 8 + 1;
      if bit {
        cr.AddInterval(c0, c);
      }
      bit := !bit;
      c0 := c;
      c := c + b % 8 + 1;
    } else {
      assert |a| == 1;
      if b >= 0x80 {
        c := c + b - 0x80 + 1;
      } else if b < 0x60 {
        c := c + (b - 0x40) * 0x100 + table[p] as int + 1;
        p := p + 1;
      } else {
        c := c + (b - 0x60) * 0x1_0000 + table[p] as int * 0x100 + table[p + 1] as int + 1;
        p := p + 2;
      }
      assert c == c0 + a[0];
    }
    if bit {
      cr.AddInterval(c0, c);
    }
    bit := !bit;
  }

  lemma {:induction false} ShortIntervals(a: seq<nat>, c: nat, bit: bool)
    requires 1 <= |a| <= 2 && c + Sum(a) <= UINT32_MAX
    ensures Sum(a) == a[0] + if |a| == 2 then a[1] else 0
    ensures Intervals(a, c, bit) ==
            if bit then [c, c + a[0]] else if |a| == 2 then [c + a[0], c + a[0] + a[1]] else []
  {
    IntervalsStep(a, c, bit);
    IntervalsStep([], c + a[0], !bit);
    if |a| == 2 {
      assert a[1..] == [a[1]] && [a[1]][1..] == [];
      IntervalsStep([a[1]], c + a[0], !bit);
      IntervalsStep([], c + a[0] + a[1], bit);
    } else {
      assert a[1..] == [];
    }
  }

  // Looking a character up and expanding the table agree: the expanded ranges are canonical
  // and contain exactly the characters of the table.
  lemma {:induction false} ExpansionAgrees(t: seq<Byte>, c: nat)
    requires Items(t, 0) && Sum(Runs(t, 0)) <= UINT32_MAX
    ensures var p := Intervals(Runs(t, 0), 0, false); Canonical(p) && (In(p, c) <==> InTable(t, c))
  {
    hide Runs, Sum, Intervals, Member;
    var p := Intervals(Runs(t, 0), 0, false);
    IntervalsDenote(Runs(t, 0), 0, false, c);
    InIsOdd(p, c);
  }
}
