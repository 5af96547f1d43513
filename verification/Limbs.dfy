// The limb routines of dtoa.c: loops over 32-bit limbs, least significant first. Every call
// in that file passes the same array as source and destination, so one array stands for both.
module Limbs {
  import opened Powers

  const LIMB_BITS := 32
  const BASE := 0x1_0000_0000

  type Limb = x: int | 0 <= x < 0x1_0000_0000

  // The number a list of limbs stands for.
  function Value(s: seq<Limb>): (v: nat) {
    if s == [] then 0 else (s[0] as int) + BASE * Value(s[1..])
  }

  // BASE to the n.
  function Scale(n: nat): (p: nat) {
    Pow(BASE, n)
  }

  lemma {:induction false} ScaleStep(n: nat)
    ensures Scale(n + 1) == BASE * Scale(n) && Scale(0) == 1 && Scale(n) > 0
  {
    PowPositive(BASE, n);
  }

  lemma {:induction false} ValueConcat(s: seq<Limb>, t: seq<Limb>)
    ensures Value(s + t) == Value(s) + Scale(|s|) * Value(t)
  {
    if s == [] {
      assert s + t == t;
      ScaleStep(0);
    } else {
      assert (s + t)[1..] == s[1..] + t;
      ValueConcat(s[1..], t);
      ScaleStep(|s| - 1);
      Distribute(BASE, Value(s[1..]), Scale(|s| - 1), Value(t));
    }
  }

  lemma {:induction false} Distribute(b: int, x: int, y: int, z: int)
    ensures b * (x + y * z) == b * x + (b * y) * z
  {
    MulAssoc(b, y, z);
  }

  lemma {:induction false} ValueOne(x: Limb)
    ensures Value([x]) == x
  {
    assert [x][1..] == [];
  }

  lemma {:induction false} ValueSnoc(s: seq<Limb>, x: Limb)
    ensures Value(s + [x]) == Value(s) + Scale(|s|) * x
  {
    ValueConcat(s, [x]);
    ValueOne(x);
  }

  lemma {:induction false} ValueBound(s: seq<Limb>)
    ensures Value(s) < Scale(|s|)
  {
    ScaleStep(0);
    if s != [] {
      ValueBound(s[1..]);
      ScaleStep(|s| - 1);
      MulMono(Value(s[1..]) + 1, Scale(|s| - 1), BASE);
    }
  }

  // ---------------------------------------------------------------------------
  // Addition and multiplication: loops that carry upwards

  // One round of a loop that carries upwards: the limb t % BASE is stored, t / BASE carried.
  lemma {:induction false} CarryUp(done: nat, p: nat, t: nat)
    ensures done + p * (t % BASE) + (BASE * p) * (t / BASE) == done + p * t
  {
    MulAssoc(p, BASE, t / BASE);
    assert t == t % BASE + BASE * (t / BASE);
    MulDistrib(p, t % BASE, BASE * (t / BASE));
  }

  lemma {:induction false} MulDistrib(x: int, y: int, z: int)
    ensures x * (y + z) == x * y + x * z
  {
  }

  // Values after one more limb, new and old.
  lemma {:induction false} NextLimb(new': seq<Limb>, old': seq<Limb>, i: nat, x: Limb, y: Limb)
    requires |new'| == i + 1 == |old'| && new'[i] == x && old'[i] == y
    ensures Value(new') == Value(new'[..i]) + Scale(i) * x
    ensures Value(old') == Value(old'[..i]) + Scale(i) * y
  {
    assert new' == new'[..i] + [x] && old' == old'[..i] + [y];
    ValueSnoc(new'[..i], x);
    ValueSnoc(old'[..i], y);
  }

  // mp_add_ui. The sum of a limb and the carry wraps; it did so exactly if it is smaller.
  method AddUi(tab: array<Limb>, b: Limb, n: nat) returns (k: Limb)
    requires n <= tab.Length
    modifies tab
    ensures Value(tab[..n]) + Scale(n) * k == old(Value(tab[..n])) + b
    ensures tab[n..] == old(tab[n..]) && (n > 0 ==> k <= 1)
  {
    hide Value, Scale;
    k := b;
    var i := 0;
    ghost var s := tab[..];
    ScaleStep(0);
    EmptyValue(tab[..0]);
    while i < n
      invariant 0 <= i <= n && (i > 0 ==> k <= 1) && tab[i..] == s[i..]
      invariant Value(tab[..i]) + Scale(i) * k == Value(s[..i]) + b
    {
      ghost var t := tab[..i];
      assert tab[i] == tab[i..][0] == s[i..][0] == s[i];
      if k == 0 {
        break;
      }
      var a := (tab[i] + k) % BASE;
      var k' := if a < k then 1 else 0;
      ghost var sum := s[i] + k;
      assert a == sum % BASE && k' == sum / BASE;
      CarryUp(Value(t), Scale(i), sum);
      MulDistrib(Scale(i), s[i], k);
      k := k';
      tab[i] := a;
      assert tab[..i + 1][..i] == t && s[..i + 1][..i] == s[..i];
      NextLimb(tab[..i + 1], s[..i + 1], i, a, s[i]);
      ScaleStep(i);
      assert tab[i + 1..] == s[i..][1..];
      i := i + 1;
    }
    if i < n {
      assert tab[..n] == tab[..i] + tab[i..][..n - i] && s[..n] == s[..i] + s[i..][..n - i];
      ValueConcat(tab[..i], tab[i..][..n - i]);
      ValueConcat(s[..i], tab[i..][..n - i]);
      assert tab[n..] == tab[i..][n - i..] == s[n..];
    }
  }

  lemma {:induction false} EmptyValue(s: seq<Limb>)
    requires s == []
    ensures Value(s) == 0
  {
  }

  // mp_mul1: tab = tab * b + l, with the high carry as the result.
  method Mul1(tab: array<Limb>, n: nat, b: Limb, l0: Limb) returns (l: Limb)
    requires n <= tab.Length
    modifies tab
    ensures Value(tab[..n]) + Scale(n) * l == old(Value(tab[..n])) * b + l0
    ensures tab[n..] == old(tab[n..])
  {
    hide Value, Scale;
    l := l0;
    var i := 0;
    ghost var s := tab[..];
    ScaleStep(0);
    EmptyValue(tab[..0]);
    while i < n
      invariant 0 <= i <= n && tab[i..] == s[i..]
      invariant Value(tab[..i]) + Scale(i) * l == Value(s[..i]) * b + l0
    {
      ghost var done := tab[..i];
      assert tab[i] == tab[i..][0] == s[i..][0] == s[i];
      ProductFits(tab[i], b, l);
      var t := tab[i] * b + l;
      CarryUp(Value(done), Scale(i), t);
      MulDistrib(Scale(i), s[i] * b, l);
      MulAssoc(Scale(i), s[i], b);
      tab[i] := t % BASE;
      assert tab[..i + 1][..i] == done && s[..i + 1][..i] == s[..i];
      NextLimb(tab[..i + 1], s[..i + 1], i, t % BASE, s[i]);
      SumTimes(Value(s[..i]), Scale(i) * s[i], b);
      ScaleStep(i);
      assert tab[i + 1..] == s[i..][1..];
      l := t / BASE;
      i := i + 1;
    }
  }

  lemma {:induction false} SumTimes(x: int, y: int, z: int)
    ensures (x + y) * z == x * z + y * z
  {
  }

  // A product of two limbs plus a carry fits in two limbs.
  lemma {:induction false} ProductFits(x: Limb, y: Limb, l: Limb)
    ensures 0 <= x * y + l && (x * y + l) / BASE < BASE
  {
    MulMono(0, x, y);
    MulMono(x, BASE - 1, y);
    MulMono(y, BASE - 1, BASE - 1);
    var p: int := x * y;
    assert 0 <= p <= (BASE - 1) * (BASE - 1);
  }

  // ---------------------------------------------------------------------------
  // Division: loops that carry downwards

  // One round: what comes down is r * BASE + a = q * b + r'.
  lemma {:induction false} CarryDown(olds: nat, news: nat, b: nat, r0: nat, r: nat, p: nat, a: nat, q: nat, r': nat)
    requires olds + p * r0 == news * b + r && r * BASE + a == q * b + r'
    ensures (a + BASE * olds) + (BASE * p) * r0 == (q + BASE * news) * b + r'
  {
    MulAssoc(BASE, p, r0);
    MulAssoc(BASE, news, b);
    SumTimes(q, BASE * news, b);
  }

  lemma {:induction false} HeadValue(s: seq<Limb>, i: nat, n: nat)
    requires i < n <= |s|
    ensures Value(s[i..n]) == s[i] + BASE * Value(s[i + 1..n])
  {
    assert s[i..n][1..] == s[i + 1..n];
  }

  // mp_div1: tab = (tab + r * BASE^n) / b, with the remainder as the result.
  method Div1(tab: array<Limb>, n: nat, b: Limb, r0: Limb) returns (r: Limb)
    requires n <= tab.Length && r0 < b
    modifies tab
    ensures old(Value(tab[..n])) + Scale(n) * r0 == Value(tab[..n]) * b + r && r < b
    ensures tab[n..] == old(tab[n..])
  {
    hide Value, Scale;
    r := r0;
    var i := n;
    ghost var s := tab[..];
    ScaleStep(0);
    EmptyValue(tab[n..n]);
    while i > 0
      invariant 0 <= i <= n && r < b && tab[..i] == s[..i] && tab[n..] == s[n..]
      invariant Value(s[i..n]) + Scale(n - i) * r0 == Value(tab[i..n]) * b + r
    {
      i := i - 1;
      ghost var done := tab[i + 1..n];
      assert tab[i] == tab[..i + 1][i] == s[..i + 1][i] == s[i];
      var a1 := r * BASE + tab[i];
      DivStep(r, tab[i], b);
      CarryDown(Value(s[i + 1..n]), Value(done), b, r0, r, Scale(n - i - 1), s[i], a1 / b, a1 % b);
      ScaleStep(n - i - 1);
      HeadValue(s, i, n);
      tab[i] := a1 / b;
      r := a1 % b;
      assert tab[i + 1..n] == done;
      HeadValue(tab[..], i, n);
      assert tab[..][i..n] == tab[i..n] && tab[..][i + 1..n] == tab[i + 1..n];
      assert tab[..i] == s[..i + 1][..i];
    }
    assert s[0..n] == s[..n] && tab[0..n] == tab[..n];
  }

  lemma {:induction false} DivStep(r: Limb, a: Limb, b: Limb)
    requires r < b
    ensures r * BASE + a == ((r * BASE + a) / b) * b + (r * BASE + a) % b
    ensures 0 <= (r * BASE + a) / b < BASE && 0 <= (r * BASE + a) % b < b
  {
    MulMono(r + 1, b, BASE);
    var x := r * BASE + a;
    var q := x / b;
    if q >= BASE {
      MulMono(BASE, q, b);
    }
  }

  // ---------------------------------------------------------------------------
  // Shifts by less than a limb

  predicate ShiftOk(shift: int) {
    1 <= shift < LIMB_BITS
  }

  lemma {:induction false} PowLimb()
    ensures Pow(2, LIMB_BITS) == BASE
  {
    assert Pow(2, 8) == 256;
    PowAdd(2, 8, 8);
    PowAdd(2, 16, 16);
  }

  // 2 to the shift, and what completes it to a limb.
  lemma {:induction false} ShiftParts(shift: nat)
    requires shift <= LIMB_BITS
    ensures Pow(2, shift) * Pow(2, LIMB_BITS - shift) == BASE && 0 < Pow(2, shift) && 0 < Pow(2, LIMB_BITS - shift)
    ensures shift < LIMB_BITS ==> Pow(2, shift) < BASE
  {
    hide Pow;
    PowAdd(2, shift, LIMB_BITS - shift);
    PowPositive(2, shift);
    PowPositive(2, LIMB_BITS - shift);
    PowLimb();
    if shift < LIMB_BITS {
      PowStrict(2, shift, LIMB_BITS);
    }
  }

  // mp_shl: tab = (tab << shift) + low, with the bits shifted out as the result. A limb and
  // what comes from below share no bits, so that their union is their sum.
  method Shl(tab: array<Limb>, n: nat, shift: int, low: Limb) returns (l: Limb)
    requires n <= tab.Length && ShiftOk(shift) && low < Pow(2, shift)
    modifies tab
    ensures Value(tab[..n]) + Scale(n) * l == old(Value(tab[..n])) * Pow(2, shift) + low
    ensures l < Pow(2, shift) && tab[n..] == old(tab[n..])
  {
    hide Value, Scale, Pow;
    l := low;
    var i := 0;
    ghost var s := tab[..];
    var p := Pow(2, shift);
    ShiftParts(shift);
    ScaleStep(0);
    EmptyValue(tab[..0]);
    while i < n
      invariant 0 <= i <= n && tab[i..] == s[i..] && l < p
      invariant Value(tab[..i]) + Scale(i) * l == Value(s[..i]) * p + low
    {
      ghost var done := tab[..i];
      assert tab[i] == tab[i..][0] == s[i..][0] == s[i];
      var a := tab[i];
      ShlStep(a, p, Pow(2, LIMB_BITS - shift), l);
      var x := a * p % BASE + l;
      CarryUp(Value(done), Scale(i), a * p + l);
      MulDistrib(Scale(i), a * p, l);
      MulAssoc(Scale(i), a, p);
      tab[i] := x;
      assert tab[..i + 1][..i] == done && s[..i + 1][..i] == s[..i];
      NextLimb(tab[..i + 1], s[..i + 1], i, x, a);
      SumTimes(Value(s[..i]), Scale(i) * a, p);
      ScaleStep(i);
      assert tab[i + 1..] == s[i..][1..];
      l := a / Pow(2, LIMB_BITS - shift);
      i := i + 1;
    }
  }

  // Shifting a limb left: the low part, combined with what comes from below, and the high part.
  lemma {:induction false} ShlStep(a: Limb, p: nat, q: nat, l: nat)
    requires p * q == BASE && p > 0 && q > 0 && l < p
    ensures a * p % BASE + l == (a * p + l) % BASE < BASE
    ensures a / q == (a * p + l) / BASE < p
  {
    var h, r := a / q, a % q;
    assert a == h * q + r;
    ShlParts(a, p, q, h, r);
    var low := r * p;
    MulMono(r + 1, q, p);
    SumTimes(r, 1, p);
    MulMono(0, r, p);
    assert 0 <= low && low + p <= BASE;
    Unique(a * p + l, BASE, h, low + l);
    Unique(a * p, BASE, h, low);
    if h >= p {
      MulMono(p, h, q);
    }
  }

  lemma {:induction false} ShlParts(a: int, p: int, q: int, h: int, r: int)
    requires a == h * q + r && p * q == BASE
    ensures a * p == h * BASE + r * p
  {
    SumTimes(h * q, r, p);
    MulAssoc(h, q, p);
    assert q * p == p * q;
  }

  // Quotient and remainder are determined.
  lemma {:induction false} Unique(x: int, b: int, q: int, r: int)
    requires b > 0 && x == q * b + r && 0 <= r < b
    ensures x / b == q && x % b == r
  {
    var d := x / b - q;
    SumTimes(x / b, -q, b);
    assert d * b == r - x % b;
    if d >= 1 {
      MulMono(1, d, b);
    } else if d <= -1 {
      MulMono(d, -1, b);
    }
  }

  // mp_shr: tab = (tab + high * BASE^n) >> shift, with the bits shifted out as the result.
  method Shr(tab: array<Limb>, n: nat, shift: int, high: Limb) returns (r: Limb)
    requires n <= tab.Length && ShiftOk(shift) && high < Pow(2, shift)
    modifies tab
    ensures old(Value(tab[..n])) + Scale(n) * high == Value(tab[..n]) * Pow(2, shift) + r && r < Pow(2, shift)
    ensures tab[n..] == old(tab[n..])
  {
    hide Value, Scale, Pow;
    var l: Limb := high;
    var i := n;
    ghost var s := tab[..];
    var p, q := Pow(2, shift), Pow(2, LIMB_BITS - shift);
    ShiftParts(shift);
    ScaleStep(0);
    EmptyValue(tab[n..n]);
    SmallMod(high, p);
    while i > 0
      invariant 0 <= i <= n && tab[..i] == s[..i] && tab[n..] == s[n..]
      invariant Value(s[i..n]) + Scale(n - i) * high == Value(tab[i..n]) * p + l % p
    {
      i := i - 1;
      ghost var done := tab[i + 1..n];
      assert tab[i] == tab[..i + 1][i] == s[..i + 1][i] == s[i];
      var a := tab[i];
      ShrStep(a, p, q, l);
      var x := a / p + l * q % BASE;
      CarryDown(Value(s[i + 1..n]), Value(done), p, high, l % p, Scale(n - i - 1), a, x, a % p);
      ScaleStep(n - i - 1);
      HeadValue(s, i, n);
      tab[i] := x;
      l := a;
      assert tab[i + 1..n] == done;
      HeadValue(tab[..], i, n);
      assert tab[..][i..n] == tab[i..n] && tab[..][i + 1..n] == tab[i + 1..n];
      assert tab[..i] == s[..i + 1][..i];
    }
    assert s[0..n] == s[..n] && tab[0..n] == tab[..n];
    r := l % p;
  }

  lemma {:induction false} SmallMod(x: nat, p: nat)
    requires x < p
    ensures x % p == x
  {
  }

  // Shifting a limb right: the limb above contributes its low bits.
  lemma {:induction false} ShrStep(a: Limb, p: nat, q: nat, l: Limb)
    requires p * q == BASE && p > 0 && q > 0
    ensures 0 <= a / p + l * q % BASE < BASE
    ensures (l % p) * BASE + a == (a / p + l * q % BASE) * p + a % p
  {
    var h, r := l / p, l % p;
    assert l == h * p + r;
    SumTimes(h * p, r, q);
    MulAssoc(h, p, q);
    MulMono(r + 1, p, q);
    MulMono(0, r, q);
    SumTimes(r, 1, q);
    Unique(l * q, BASE, h, r * q);
    SumTimes(a / p, r * q, p);
    MulAssoc(r, q, p);
    if a / p >= q {
      MulMono(q, a / p, p);
    }
  }

  // ---------------------------------------------------------------------------
  // Division by a multiplied inverse

  const BASE2 := 0x1_0000_0000_0000_0000

  // udiv1norm_init: floor((BASE^2 - 1) / d) - BASE, as the two-limb division computes it.
  function Udiv1normInit(d: Limb): (v: Limb)
    requires d >= BASE / 2
    ensures (BASE + v) * d <= BASE2 - 1 < (BASE + v + 1) * d
  {
    var a1 := (-(d as int) - 1) % BASE;
    var a0 := -1 % BASE;
    InitBounds(d);
    (a1 * BASE + a0) / d
  }

  lemma {:induction false} InitBounds(d: Limb)
    requires d >= BASE / 2
    ensures (-(d as int) - 1) % BASE == BASE - 1 - d && -1 % BASE == BASE - 1
    ensures var v := ((BASE - 1 - d) * BASE + (BASE - 1)) / d;
            0 <= v < BASE && (BASE + v) * d <= BASE2 - 1 < (BASE + v + 1) * d
  {
    var x := (BASE - 1 - d) * BASE + (BASE - 1);
    var v := x / d;
    assert x == BASE2 - 1 - BASE * d;
    assert x == v * d + x % d;
    SumTimes(BASE, v, d);
    SumTimes(BASE + v, 1, d);
    if v >= BASE {
      MulMono(BASE, v, d);
    }
  }

  predicate IsInverse(d: Limb, v: Limb) {
    d >= BASE / 2 && (BASE + v) * d <= BASE2 - 1 < (BASE + v + 1) * d
  }

  // The first estimate of udiv1norm is the quotient or one less: what it leaves is between
  // 0 and 2d. In both cases m stands for BASE + v and e for BASE^2 - m * d.
  lemma {:induction false} EstimateLow(a1: Limb, a0: Limb, d: Limb, v: Limb, q: nat)
    requires IsInverse(d, v) && a1 < d && a0 < BASE / 2
    requires q == a1 + (v * a1 + a0) / BASE
    ensures 0 <= a1 * BASE + a0 - q * d < 2 * d
  {
    var m, e := BASE + v, BASE2 - (BASE + v) * d;
    SumTimes(BASE + v, 1, d);
    assert 1 <= e <= d;
    var t := v * a1 + a0;
    SumTimes(BASE, v, a1);
    // BASE * q lies between m * a1 + a0 - (BASE - 1) and m * a1 + a0
    assert m * a1 + a0 - (BASE - 1) <= BASE * q <= m * a1 + a0;
    MulMono(BASE * q, m * a1 + a0, d);
    MulMono(m * a1 + a0 - (BASE - 1), BASE * q, d);
    EstimateProducts(m, a1, a0, d, e, q);
    var left := a1 * BASE + a0 - q * d;
    MulMono(0, e, a1);
    // lower bound
    MulMono(0, BASE - d, a0);
    assert BASE * left >= 0;
    // upper bound
    MulMono(a0, BASE / 2 - 1, BASE - d);
    MulMono(e, d, a1);
    MulMono(a1, d - 1, d);
    EstimateLowGap(d);
  }

  lemma {:induction false} EstimateProducts(m: int, a1: int, a0: int, d: int, e: int, q: int)
    requires e == BASE2 - m * d
    ensures (m * a1 + a0) * d == BASE2 * a1 - e * a1 + a0 * d
    ensures (m * a1 + a0 - (BASE - 1)) * d == BASE2 * a1 - e * a1 + a0 * d - (BASE - 1) * d
    ensures (BASE * q) * d == BASE * (q * d)
    ensures a0 * (BASE - d) == (BASE - d) * a0 == BASE * a0 - a0 * d
  {
    SumTimes(m * a1, a0, d);
    SumTimes(m * a1 + a0, -(BASE - 1), d);
    MulAssoc(m, a1, d);
    MulAssoc(m, d, a1);
    assert m * (a1 * d) == m * (d * a1);
    SumTimes(m * d, e, a1);
    MulAssoc(BASE, q, d);
    MulDistrib(a0, BASE, -d);
    assert a0 * -d == -(a0 * d);
  }

  lemma {:induction false} EstimateLowGap(d: int)
    requires BASE / 2 <= d < BASE
    ensures (BASE / 2 - 1) * (BASE - d) + d * (d - 1) + (BASE - 1) * d < 2 * d * BASE
  {
    // (d - BASE / 2) * (BASE - d) is not negative
    MulMono(0, d - BASE / 2, BASE - d);
    assert (d - BASE / 2) * (BASE - d) == d * BASE - d * d - (BASE / 2) * BASE + (BASE / 2) * d;
    assert (BASE / 2 - 1) * (BASE - d) == (BASE / 2) * BASE - (BASE / 2) * d - BASE + d;
  }

  lemma {:induction false} EstimateHigh(a1: Limb, a0: Limb, d: Limb, v: Limb, q: nat)
    requires IsInverse(d, v) && a1 < d && a0 >= BASE / 2
    requires q == a1 + (v * (a1 + 1) + (a0 + d - BASE)) / BASE
    ensures 0 <= a1 * BASE + a0 - q * d < 2 * d
  {
    var m, e, c := BASE + v, BASE2 - (BASE + v) * d, a1 + 1;
    SumTimes(BASE + v, 1, d);
    assert 1 <= e <= d;
    SumTimes(BASE, v, c);
    var num := m * c + (a0 + d - 2 * BASE);
    assert num - (BASE - 1) <= BASE * q <= num;
    MulMono(BASE * q, num, d);
    MulMono(num - (BASE - 1), BASE * q, d);
    EstimateProductsHigh(m, c, a0, d, e, q);
    var left := a1 * BASE + a0 - q * d;
    // lower bound: (BASE - d) * (BASE - d - a0) <= 0 <= e * c
    MulMono(0, e, c);
    MulMono(BASE - d, a0, BASE - d);
    assert BASE * left >= 0;
    // upper bound
    MulMono(a0, BASE - 1, BASE - d);
    MulMono(e, d, c);
    MulMono(c, d, d);
    assert BASE * left < 2 * (BASE * d);
  }

  lemma {:induction false} EstimateProductsHigh(m: int, c: int, a0: int, d: int, e: int, q: int)
    requires e == BASE2 - m * d
    ensures (m * c + (a0 + d - 2 * BASE)) * d == BASE2 * c - e * c + a0 * d + d * d - 2 * BASE * d
    ensures (m * c + (a0 + d - 2 * BASE) - (BASE - 1)) * d
         == BASE2 * c - e * c + a0 * d + d * d - 2 * BASE * d - (BASE - 1) * d
    ensures (BASE * q) * d == BASE * (q * d)
    ensures a0 * (BASE - d) == BASE * a0 - a0 * d
    ensures (BASE - d) * (BASE - d) == BASE * BASE - 2 * BASE * d + d * d
    ensures (BASE - 1) * (BASE - d) == (BASE - 1) * BASE - BASE * d + d
  {
    SumTimes(m * c, a0 + d - 2 * BASE, d);
    SumTimes(a0 + d, -2 * BASE, d);
    SumTimes(a0, d, d);
    SumTimes(m * c + (a0 + d - 2 * BASE), -(BASE - 1), d);
    MulAssoc(m, c, d);
    MulAssoc(m, d, c);
    assert m * (c * d) == m * (d * c);
    SumTimes(m * d, e, c);
    MulAssoc(BASE, q, d);
    MulDistrib(a0, BASE, -d);
    assert a0 * -d == -(a0 * d);
    MulDistrib(BASE - d, BASE, -d);
    assert (BASE - d) * -d == -((BASE - d) * d);
    SumTimes(BASE, -d, d);
    assert -d * d == -(d * d);
  }

  // The correction of the estimate: a difference that may be negative is kept modulo
  // BASE^2, where its high limb is 0 or -1.
  lemma {:induction false} Correction(a1: Limb, a0: Limb, d: Limb, q: Limb)
    requires d > 0 && 0 <= a1 * BASE + a0 - q * d < 2 * d
    ensures var a := (a1 * BASE + a0 - q * d - d) % BASE2;
            var ah := a / BASE;
            && ah == (if a1 * BASE + a0 - q * d >= d then 0 else BASE - 1)
            && a % BASE == (a1 * BASE + a0 - q * d - d) % BASE
  {
    var x := a1 * BASE + a0 - q * d - d;
    if x >= 0 {
      Unique(x, BASE2, 0, x);
      Unique(x, BASE, 0, x);
    } else {
      Unique(x, BASE2, -1, x + BASE2);
      Unique(x, BASE, -1, x + BASE);
      Unique(x + BASE2, BASE, BASE - 1, x + BASE);
    }
  }

  lemma {:induction false} WrapsAround(a1: Limb, a0: Limb, d: Limb, dInv: Limb, n1m: Limb)
    requires IsInverse(d, dInv) && a1 < d && n1m == (if a0 >= BASE / 2 then BASE - 1 else 0)
    ensures ((a1 as int) - n1m) % BASE == if n1m == 0 then a1 else a1 + 1
    ensures (a0 + if n1m == 0 then 0 else d) % BASE == if n1m == 0 then a0 else a0 + d - BASE
    ensures a1 + 1 < BASE
  {
  }

  // The estimate as the code computes it: nothing wraps that should not.
  lemma {:induction false} EstimateIs(a1: Limb, a0: Limb, d: Limb, dInv: Limb, n1m: Limb, nAdj: Limb, c: Limb, a: int, q: Limb)
    requires IsInverse(d, dInv) && a1 < d && n1m == (if a0 >= BASE / 2 then BASE - 1 else 0)
    requires nAdj == (a0 + if n1m == 0 then 0 else d) % BASE && c == ((a1 as int) - n1m) % BASE
    requires a == (dInv * c + nAdj) % BASE2 && q == (a / BASE + a1) % BASE
    ensures 0 <= a1 * BASE + a0 - q * d < 2 * d
  {
    hide IsInverse;
    WrapsAround(a1, a0, d, dInv, n1m);
    EstimateWraps(dInv, c, nAdj, a);
    var estimate := a1 + a / BASE;
    if n1m == 0 {
      assert c == a1 && nAdj == a0;
      EstimateLow(a1, a0, d, dInv, estimate);
    } else {
      assert c == a1 + 1 && nAdj == a0 + d - BASE;
      EstimateHigh(a1, a0, d, dInv, estimate);
    }
    EstimateFits(a1, a0, d, estimate);
  }

  lemma {:induction false} EstimateWraps(dInv: Limb, c: Limb, nAdj: Limb, a: int)
    requires a == (dInv * c + nAdj) % BASE2
    ensures a == dInv * c + nAdj
  {
    ProductFits(dInv, c, nAdj);
    ProductBelow(dInv * c + nAdj);
  }

  // The result after the correction.
  lemma {:induction false} Corrected(a1: Limb, a0: Limb, d: Limb, q: Limb, a: int, q': Limb, r: Limb)
    requires a1 < d && 0 <= a1 * BASE + a0 - q * d < 2 * d && a == (a1 * BASE + a0 - q * d - d) % BASE2
    requires q' == (q + 1 + a / BASE) % BASE && r == (a % BASE + if a / BASE == 0 then 0 else d) % BASE
    ensures a1 * BASE + a0 == q' * d + r && r < d
  {
    var n, m := a1 * BASE + a0, q * d;
    var left := n - m;
    Correction(a1, a0, d, q);
    if left >= d {
      SumTimes(q, 1, d);
      var q1: int := q + 1;
      assert q1 * d == m + d;
      EstimateFits(a1, a0, d, q1);
      Unique(left - d, BASE, 0, left - d);
      assert q' == q1 && r == left - d;
    } else {
      Unique(left - d, BASE, -1, left - d + BASE);
      Unique(q + BASE, BASE, 1, q);
      Unique(left + BASE, BASE, 1, left);
      assert q' == q && r == left;
    }
  }

  // udiv1norm: quotient and remainder of a1 * BASE + a0 by a normalised divisor. All sums
  // and products wrap at the width of the C type.
  method Udiv1norm(a1: Limb, a0: Limb, d: Limb, dInv: Limb) returns (q: Limb, r: Limb)
    requires IsInverse(d, dInv) && a1 < d
    ensures a1 * BASE + a0 == q * d + r && r < d
  {
    hide IsInverse;
    // (slimb_t)a0 >> (LIMB_BITS - 1): all ones if the top bit is set
    var n1m: Limb := if a0 >= BASE / 2 then BASE - 1 else 0;
    var nAdj: Limb := (a0 + if n1m == 0 then 0 else d) % BASE;
    var c: Limb := ((a1 as int) - n1m) % BASE;
    var a := (dInv * c + nAdj) % BASE2;
    q := (a / BASE + a1) % BASE;
    EstimateIs(a1, a0, d, dInv, n1m, nAdj, c, a, q);
    a := (a1 * BASE + a0 - q * d - d) % BASE2;
    var ah := a / BASE;
    ghost var estimate := q;
    q := (q + 1 + ah) % BASE;
    r := (a % BASE + if ah == 0 then 0 else d) % BASE;
    Corrected(a1, a0, d, estimate, a, q, r);
  }

  lemma {:induction false} ProductBelow(x: int)
    requires 0 <= x && x / BASE < BASE
    ensures x % BASE2 == x
  {
  }

  lemma {:induction false} EstimateFits(a1: Limb, a0: Limb, d: Limb, q: nat)
    requires a1 < d && q * d <= a1 * BASE + a0
    ensures q < BASE
  {
    if q >= BASE {
      MulMono(BASE, q, d);
      MulMono(a1 + 1, d, BASE);
    }
  }

  // The loop of mp_div1norm: division by a normalised b.
  method DivLoop(tab: array<Limb>, n: nat, b: Limb, r0: Limb, bInv: Limb) returns (r: Limb)
    requires n <= tab.Length && IsInverse(b, bInv) && r0 < b
    modifies tab
    ensures old(Value(tab[..n])) + Scale(n) * r0 == Value(tab[..n]) * b + r && r < b
    ensures tab[n..] == old(tab[n..])
  {
    hide Value, Scale, IsInverse;
    r := r0;
    var i := n;
    ghost var s := tab[..];
    ScaleStep(0);
    EmptyValue(tab[n..n]);
    while i > 0
      invariant 0 <= i <= n && r < b && tab[..i] == s[..i] && tab[n..] == s[n..]
      invariant Value(s[i..n]) + Scale(n - i) * r0 == Value(tab[i..n]) * b + r
    {
      i := i - 1;
      ghost var done := tab[i + 1..n];
      assert tab[i] == tab[..i + 1][i] == s[..i + 1][i] == s[i];
      var q, r' := Udiv1norm(r, tab[i], b, bInv);
      CarryDown(Value(s[i + 1..n]), Value(done), b, r0, r, Scale(n - i - 1), s[i], q, r');
      ScaleStep(n - i - 1);
      HeadValue(s, i, n);
      tab[i] := q;
      r := r';
      assert tab[i + 1..n] == done;
      HeadValue(tab[..], i, n);
      assert tab[..][i..n] == tab[i..n] && tab[..][i + 1..n] == tab[i + 1..n];
      assert tab[..i] == s[..i + 1][..i];
    }
    assert s[0..n] == s[..n] && tab[0..n] == tab[..n];
  }

  // The top limb, shifted up with the bits from below.
  method ShiftedTop(r0: Limb, shift: nat, high: Limb, ghost b0: nat, ghost b: Limb) returns (r: Limb)
    requires shift < LIMB_BITS && b == b0 * Pow(2, shift) && r0 < b0 && high < Pow(2, shift)
    ensures r == r0 * Pow(2, shift) + high && r < b
  {
    hide Pow;
    TopFits(r0, b0, Pow(2, shift), high, b);
    r := r0 * Pow(2, shift) % BASE + high;
  }

  // With a shift, all limbs are shifted up first.
  method ScaleUp(tab: array<Limb>, n: nat, r0: Limb, shift: nat, ghost b0: nat, ghost b: Limb) returns (r: Limb)
    requires n <= tab.Length && shift < LIMB_BITS && b == b0 * Pow(2, shift) && r0 < b0
    modifies tab
    ensures Value(tab[..n]) + Scale(n) * r == (old(Value(tab[..n])) + Scale(n) * r0) * Pow(2, shift) && r < b
    ensures tab[n..] == old(tab[n..])
  {
    hide Value, Scale, Pow;
    r := r0;
    if shift != 0 {
      ghost var x, p := Value(tab[..n]), Pow(2, shift);
      ShiftParts(shift);
      var high := Shl(tab, n, shift, 0);
      ghost var y := Value(tab[..n]);
      assert y + Scale(n) * high == x * p;
      r := ShiftedTop(r0, shift, high, b0, b);
      ScaledUp(x, y, Scale(n), r0, p, high);
    } else {
      PowZero();
    }
  }

  // mp_div1norm: division by b0, which is b before it was shifted up to have its top bit
  // set. The limbs are shifted in place first, and then divided from the top.
  method Div1norm(tab: array<Limb>, n: nat, b: Limb, r0: Limb, bInv: Limb, shift: nat, ghost b0: nat) returns (r: Limb)
    requires n <= tab.Length && IsInverse(b, bInv) && shift < LIMB_BITS && b == b0 * Pow(2, shift) && r0 < b0
    modifies tab
    ensures old(Value(tab[..n])) + Scale(n) * r0 == Value(tab[..n]) * b0 + r && r < b0
    ensures tab[n..] == old(tab[n..])
  {
    hide Value, Scale, Pow, IsInverse;
    ghost var x, p := Value(tab[..n]) + Scale(n) * r0, Pow(2, shift);
    ShiftParts(shift);
    r := ScaleUp(tab, n, r0, shift, b0, b);
    r := DivLoop(tab, n, b, r, bInv);
    Descale(x, Value(tab[..n]), b0, p, r);
    r := r / Pow(2, shift);
  }

  lemma {:induction false} ScaledUp(x: nat, x': nat, w: nat, r0: nat, p: nat, high: int)
    requires x' + w * high == x * p
    ensures x' + w * (r0 * p + high) == (x + w * r0) * p
  {
    SumTimes(x, w * r0, p);
    MulAssoc(w, r0, p);
    MulDistrib(w, r0 * p, high);
  }

  lemma {:induction false} PowZero()
    ensures Pow(2, 0) == 1
  {
  }

  // The shifted remainder and the bits that come up from below fit, and stay below b.
  lemma {:induction false} TopFits(r0: nat, b0: nat, p: nat, high: nat, b: Limb)
    requires r0 < b0 && high < p && b == b0 * p
    ensures r0 * p % BASE == r0 * p && 0 <= r0 * p && r0 * p + high < b
  {
    MulMono(r0 + 1, b0, p);
    SumTimes(r0, 1, p);
    MulMono(0, r0, p);
  }

  // Dividing both sides by the scaling factor.
  lemma {:induction false} Descale(x: nat, q: nat, b0: nat, p: nat, r: nat)
    requires p > 0 && x * p == q * (b0 * p) + r && r < b0 * p
    ensures x == q * b0 + r / p && r / p < b0
  {
    MulAssoc(q, b0, p);
    var d := x - q * b0;
    SumTimes(q * b0, d, p);
    Unique(r, p, d, 0);
    if d >= b0 {
      MulMono(b0, d, p);
    }
  }
}
