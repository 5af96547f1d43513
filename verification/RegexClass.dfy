// Character classes from pattern to machine: the range opcodes emitted for a class accept
// a character exactly when the CharacterSetMatcher of the class does.
module RegexClass {
  import opened Bytes
  import opened CharRange
  import opened RegexOpcode
  import opened RegexAsm
  import opened RegexMachine
  import Spec = RegexSpec

  // ---------------------------------------------------------------------------
  // The set built while parsing a class

  lemma {:induction false} InPair(lo: Point, hi: Point, c: int)
    requires lo <= hi
    ensures In([lo, hi], c) <==> lo <= c < hi
  {
    InIsOdd([lo, hi], c);
    OddAppend([lo], hi, c);
    OddAppend([], lo, c);
    assert [lo] + [hi] == [lo, hi] && [] + [lo] == [lo];
  }

  lemma {:induction false} ImageSetCorrect(canon: int -> int, lo: int, hi: int)
    requires Spec.CanonOk(canon) && 0 <= lo && hi <= 0x10_FFFF
    ensures Canonical(ImageSet(canon, lo, hi))
    ensures forall c: int :: In(ImageSet(canon, lo, hi), c) <==> exists a {:trigger canon(a)} :: lo <= a <= hi && canon(a) == c
    decreases hi - lo
  {
    if lo <= hi {
      var rest := ImageSet(canon, lo, hi - 1);
      var one: seq<Point> := [canon(hi), canon(hi) + 1];
      ImageSetCorrect(canon, lo, hi - 1);
      OpCorrect(Union, rest, one);
      forall c: int
        ensures In(ImageSet(canon, lo, hi), c) <==> exists a {:trigger canon(a)} :: lo <= a <= hi && canon(a) == c
      {
        InPair(canon(hi), canon(hi) + 1, c);
      }
    }
  }

  // Membership in the union of the items, folded when the match ignores case.
  ghost predicate InClass(canon: int -> int, items: seq<Spec.ClassItem>, icase: bool, c: int) {
    if icase then exists a {:trigger canon(a)} :: Spec.InItems(items, a) && canon(a) == c
    else Spec.InItems(items, c)
  }

  lemma {:induction false} ItemSetCorrect(canon: int -> int, i: Spec.ClassItem, icase: bool)
    requires Spec.CanonOk(canon) && Spec.WellFormedItem(i)
    ensures Canonical(ItemSet(canon, i, icase))
    ensures forall c: int :: In(ItemSet(canon, i, icase), c) <==> InClass(canon, [i], icase, c)
  {
    assert forall a: int :: Spec.InItems([i], a) <==> Spec.InItem([i][0], a);
    match i
    case Single(s) =>
      forall c: int
        ensures In(ItemSet(canon, i, icase), c) <==> InClass(canon, [i], icase, c)
      {
        var v := if icase then canon(s) else s;
        InPair(v, v + 1, c);
      }
    case Span(lo, hi) =>
      if icase {
        ImageSetCorrect(canon, lo, hi);
      } else {
        forall c: int
          ensures In(ItemSet(canon, i, icase), c) <==> InClass(canon, [i], icase, c)
        {
          InPair(lo, hi + 1, c);
        }
      }
  }

  lemma {:induction false} InItemsSplit(items: seq<Spec.ClassItem>, a: int)
    requires items != []
    ensures Spec.InItems(items, a) <==>
            Spec.InItems(items[..|items| - 1], a) || Spec.InItems([items[|items| - 1]], a)
  {
    var n := |items| - 1;
    if Spec.InItems(items, a) {
      var i :| 0 <= i < |items| && Spec.InItem(items[i], a);
      if i < n {
        assert Spec.InItem(items[..n][i], a);
      } else {
        assert Spec.InItem([items[n]][0], a);
      }
    }
    if Spec.InItems(items[..n], a) {
      var i :| 0 <= i < n && Spec.InItem(items[..n][i], a);
      assert Spec.InItem(items[i], a);
    }
  }

  lemma {:induction false} ItemsSetCorrect(canon: int -> int, items: seq<Spec.ClassItem>, icase: bool)
    requires Spec.CanonOk(canon) && forall i :: 0 <= i < |items| ==> Spec.WellFormedItem(items[i])
    ensures Canonical(ItemsSet(canon, items, icase))
    ensures forall c: int :: In(ItemsSet(canon, items, icase), c) <==> InClass(canon, items, icase, c)
  {
    if items != [] {
      var n := |items| - 1;
      ItemsSetCorrect(canon, items[..n], icase);
      ItemSetCorrect(canon, items[n], icase);
      OpCorrect(Union, ItemsSet(canon, items[..n], icase), ItemSet(canon, items[n], icase));
      forall a: int
        ensures Spec.InItems(items, a) <==> Spec.InItems(items[..n], a) || Spec.InItems([items[n]], a)
      {
        InItemsSplit(items, a);
      }
    }
  }

  // ---------------------------------------------------------------------------
  // The range opcodes

  predicate Separated(t: seq<Interval>) {
    && (forall i :: 0 <= i < |t| ==> t[i].0 <= t[i].1)
    && (forall i, j :: 0 <= i < j < |t| ==> t[i].1 < t[j].0)
  }

  predicate InTable(t: seq<Interval>, c: int) {
    exists i :: 0 <= i < |t| && t[i].0 <= c <= t[i].1
  }

  // The binary search finds c exactly when some interval between lo and hi holds it.
  lemma {:induction false} RangeSearchCorrect(t: seq<Interval>, c: int, lo: int, hi: int)
    requires 0 <= lo && hi < |t| && |t| > 0 && t[0].0 <= c && Separated(t)
    ensures RangeSearch(t, c, lo, hi) <==> exists i :: lo <= i <= hi && t[i].0 <= c <= t[i].1
    decreases hi - lo
  {
    if lo <= hi {
      var mid := (lo + hi) / 2;
      if c < t[mid].0 {
        RangeSearchCorrect(t, c, lo, mid - 1);
      } else if c > t[mid].1 {
        RangeSearchCorrect(t, c, mid + 1, hi);
      }
    }
  }

  lemma {:induction false} TablesOf(p: seq<Point>)
    requires Canonical(p) && p != []
    ensures Separated(Table32(p))
    ensures forall c :: 0 <= c < UINT32_MAX ==> (InTable(Table32(p), c) <==> In(p, c))
  {
    TableSeparated(p);
    forall c | 0 <= c < UINT32_MAX
      ensures InTable(Table32(p), c) <==> In(p, c)
    {
      InTableOf(p, c);
    }
  }

  lemma {:induction false} TableSeparated(p: seq<Point>)
    requires Canonical(p) && p != []
    ensures Separated(Table32(p))
  {
  }

  lemma {:induction false} InTableOf(p: seq<Point>, c: int)
    requires Canonical(p) && p != []
    ensures InTable(Table32(p), c) <==> In(p, c)
  {
    var t := Table32(p);
    if In(p, c) {
      var i :| 0 <= i < |p| / 2 && p[2 * i] <= c < p[2 * i + 1];
      assert t[i].0 <= c <= t[i].1;
    }
    if InTable(t, c) {
      var i :| 0 <= i < |t| && t[i].0 <= c <= t[i].1;
      assert p[2 * i] <= c < p[2 * i + 1];
    }
  }

  lemma {:induction false} Table16Of(p: seq<Point>)
    requires Canonical(p) && p != [] && HighBound(p) <= 0xffff
    ensures |Table16(p)| == |p| / 2 > 0 && Separated(Table16(p))
  {
  }

  lemma {:induction false} Table16At(p: seq<Point>, k: int)
    requires Canonical(p) && p != [] && HighBound(p) <= 0xffff && 0 <= k < |p| / 2
    ensures var t := Table16(p);
            && t[k].0 == p[2 * k] <= 0xffff
            && (p[2 * k + 1] <= 0xffff ==> t[k].1 == p[2 * k + 1] - 1)
            && (p[2 * k + 1] > 0xffff ==> k == |p| / 2 - 1 && p[2 * k + 1] == UINT32_MAX && t[k].1 == 0xffff)
  {
  }

  lemma {:induction false} RangeHas32(p: seq<Point>, c: int)
    requires Canonical(p) && p != [] && 0 <= c < UINT32_MAX
    ensures RangeHas(Table32(p), c, true) <==> In(p, c)
  {
    TablesOf(p);
    var t := Table32(p);
    if t[0].0 <= c {
      RangeSearchCorrect(t, c, 0, |t| - 1);
    }
  }

  lemma {:induction false} RangeHas16(p: seq<Point>, c: int)
    requires Canonical(p) && p != [] && HighBound(p) <= 0xffff && 0 <= c < UINT32_MAX
    ensures RangeHas(Table16(p), c, false) <==> In(p, c)
  {
    hide Table16, HighBound, RangeHas, In;
    if In(p, c) {
      Finds16(p, c);
    } else {
      Misses16(p, c);
    }
  }

  lemma {:induction false} Finds16(p: seq<Point>, c: int)
    requires Canonical(p) && p != [] && HighBound(p) <= 0xffff && 0 <= c < UINT32_MAX && In(p, c)
    ensures RangeHas(Table16(p), c, false)
  {
    hide Table16, HighBound, RangeSearch;
    Table16Of(p);
    var t := Table16(p);
    var n := |t| - 1;
    var i :| 0 <= i < |p| / 2 && p[2 * i] <= c < p[2 * i + 1];
    Table16At(p, i);
    Table16At(p, 0);
    Table16At(p, n);
    if i < n {
      assert t[i].1 < t[n].0;
    }
    RangeSearchCorrect(t, c, 0, n);
  }

  lemma {:induction false} Misses16(p: seq<Point>, c: int)
    requires Canonical(p) && p != [] && HighBound(p) <= 0xffff && 0 <= c < UINT32_MAX && !In(p, c)
    ensures !RangeHas(Table16(p), c, false)
  {
    hide Table16, HighBound, RangeSearch;
    Table16Of(p);
    var t := Table16(p);
    var n := |t| - 1;
    Table16At(p, n);
    assert !(p[2 * n] <= c < p[2 * n + 1]);
    if t[0].0 <= c {
      RangeSearchCorrect(t, c, 0, n);
      if RangeSearch(t, c, 0, n) {
        var i :| 0 <= i <= n && t[i].0 <= c <= t[i].1;
        Table16At(p, i);
      }
    }
  }

  // For every canonical set: the opcode emitted for it accepts c exactly when the set has
  // the (folded) character, whichever of the three forms re_emit_range chooses.
  lemma {:induction false} EmitRangeCorrect(m: Machine, p: seq<Point>, icase: bool, c: int)
    requires Canonical(p) && 0 <= c < UINT32_MAX && 0 <= Fold(m, icase, c) < UINT32_MAX
    ensures IsCharTest(EmitRange(p, icase))
    ensures TestChar(m, EmitRange(p, icase), c) <==> In(p, Fold(m, icase, c))
  {
    if p != [] {
      if HighBound(p) <= 0xffff {
        RangeHas16(p, Fold(m, icase, c));
      } else {
        RangeHas32(p, Fold(m, icase, c));
      }
    }
  }

  // The operands of that opcode fit their fields, unless there are too many ranges.
  lemma {:induction false} EmitRangeValid(p: seq<Point>, icase: bool)
    requires Canonical(p) && |p| / 2 < U16_LIMIT
    ensures ValidInstr(EmitRange(p, icase))
  {
    if p != [] {
      TablesOf(p);
    }
  }

  // Main result: the emitted instruction implements the one-character matcher.
  lemma {:induction false} CharInstrCorrect(m: Machine, env: Spec.Env, r: Spec.Node, f: Spec.Flags, c: int)
    requires r.Literal? || r.Dot? || r.Class?
    requires Spec.WellFormed(r) && Spec.CanonOk(m.canon) && env.canon == m.canon && 0 <= c <= 0x10_FFFF
    ensures IsCharTest(OneChar(m.canon, r, f))
    ensures TestChar(m, OneChar(m.canon, r, f), c) <==> Spec.Accepts(env, r, f, c)
  {
    match r
    case Literal(l) =>
    case Dot =>
    case Class(items, negated) =>
      var p := ItemsSet(m.canon, items, f.ignoreCase);
      ItemsSetCorrect(m.canon, items, f.ignoreCase);
      InvertCorrect(p);
      var q := ClassSet(m.canon, items, negated, f.ignoreCase);
      EmitRangeCorrect(m, q, f.ignoreCase, c);
      ClassHasIsInClass(env, f, items, c);
  }

  lemma {:induction false} ClassHasIsInClass(env: Spec.Env, f: Spec.Flags, items: seq<Spec.ClassItem>, c: int)
    ensures Spec.ClassHas(env, f, items, c) <==>
            InClass(env.canon, items, f.ignoreCase, if f.ignoreCase then env.canon(c) else c)
  {
    if f.ignoreCase {
      if Spec.ClassHas(env, f, items, c) {
        var a :| Spec.InItems(items, a) && env.canon(a) == env.canon(c);
      }
      if InClass(env.canon, items, true, env.canon(c)) {
        var a :| Spec.InItems(items, a) && env.canon(a) == env.canon(c);
      }
    }
  }
}
