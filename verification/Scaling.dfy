// pow_ui, pow_ui_inv and mul_pow of dtoa.c: multiplying a bignum by a power of the radix,
// with the remainder of a division kept in a sticky bit.
module Scaling {
  import opened Powers
  import opened Limbs
  import opened Rounding
  import opened Bignum

  const POW5: seq<int> := [
    0x00000005, 0x00000019, 0x0000007d, 0x00000271,
    0x00000c35, 0x00003d09, 0x0001312d, 0x0005f5e1,
    0x001dcd65, 0x009502f9, 0x02e90edd, 0x0e8d4a51,
    0x48c27395, 0x6bcc41e9, 0x1afd498d, 0x86f26fc1,
    0xa2bc2ec5]

  const POW5_HIGH: seq<int> := [0x01, 0x07, 0x23, 0xb1]

  const POW5_INV: seq<int> := [
    0x99999999, 0x47ae147a, 0x0624dd2f, 0xa36e2eb1,
    0x4f8b588e, 0x0c6f7a0b, 0xad7f29ab, 0x5798ee23,
    0x12e0be82, 0xb7cdfd9d, 0x5fd7fe17, 0x19799812,
    0xc25c2684]

  // digits_per_limb_table, from radix 2 on
  const DIGITS_PER_LIMB: seq<int> := [
    32, 20, 16, 13, 12, 11, 10, 10, 9, 9, 8, 8, 8, 8, 8, 7, 7, 7, 7, 7, 7, 7, 6, 6, 6, 6, 6, 6, 6, 6, 6, 6, 6, 6, 6]

  lemma {:induction false} Pow5Table(b: nat)
    requires 1 <= b <= 17
    ensures POW5[b - 1] + (if b >= 14 then POW5_HIGH[b - 14] * BASE else 0) == Pow(5, b)
  {
    hide Pow;
    PowStep(5, 0);
    PowOne(5);
    if b > 1 {
      Pow5Table(b - 1);
      PowStep(5, b - 1);
    }
  }

  lemma {:induction false} PowOne(a: nat)
    ensures Pow(a, 0) == 1 && Pow(a, 1) == a
  {
    PowStep(a, 0);
  }

  // A product modulo m.
  lemma {:induction false} ModProduct(x: nat, y: nat, m: nat)
    requires m > 0
    ensures (x % m) * (y % m) % m == x * y % m
  {
    var q, r := DivMod(x, m);
    var k, t := DivMod(y, m);
    MulDistrib(x, k * m, t);
    MulAssoc(x, k, m);
    SumTimes(q * m, r, t);
    MulAssoc(q, m, t);
    MulAssoc(q, t, m);
    assert m * t == t * m;
    var n, s := DivMod(r * t, m);
    SumTimes(x * k, q * t, m);
    SumTimes(x * k + q * t, n, m);
    assert x * y == (x * k + q * t + n) * m + s;
    Unique(x * y, m, x * k + q * t + n, s);
    Unique(r * t, m, n, s);
  }

  // pow_ui: by the table for 5 and 10, else by repeated squaring, modulo 2^64.
  method PowUi(a: Limb, b: nat) returns (r: nat)
    ensures r == Pow(a, b) % BASE2
  {
    hide Pow, BitLength;
    PowOne(a);
    if b == 0 {
      return 1;
    }
    if b == 1 {
      return a;
    }
    if (a == 5 || a == 10) && b <= 17 {
      r := FromTable(a, b);
      return r;
    }
    r := a;
    var i := BitLength(b) - 2;
    BitLengthBounds(b);
    ghost var left := TopBit(b);
    while i >= 0
      invariant -1 <= i && Prefix(b, i + 1) > 0 && r == Pow(a, Prefix(b, i + 1)) % BASE2
    {
      PrefixStep(b, i);
      ghost var h := Prefix(b, i + 1);
      ghost var x := Pow(a, h);
      PowAdd(a, h, h);
      ModProduct(x, x, BASE2);
      r := r * r % BASE2;
      if b / Pow(2, i) % 2 == 1 {
        PowStep(a, h + h);
        MulCommutes(x * x, a);
        ModProduct(x * x, a, BASE2);
        r := r * a % BASE2;
      }
      i := i - 1;
    }
    PrefixAll(b);
  }

  // The powers of 5 and 10 that fit 64 bits.
  method FromTable(a: nat, b: nat) returns (r: nat)
    requires (a == 5 || a == 10) && 1 <= b <= 17
    ensures r == Pow(a, b) < BASE2
  {
    hide Pow;
    Pow5Table(b);
    r := POW5[b - 1];
    if b >= 14 {
      r := r + POW5_HIGH[b - 14] * BASE;
    }
    PowBase(5, 2, b);
    PowMono(2, b, 17);
    PowMono(5, b, 17);
    TableBound();
    MulMono(Pow(5, b), Pow(5, 17), Pow(2, b));
    MulMono(Pow(2, b), Pow(2, 17), Pow(5, 17));
    if a == 10 {
      r := r * Pow(2, b);
    }
  }

  lemma {:induction false} TableBound()
    ensures Pow(5, 17) * Pow(2, 17) < BASE2
  {
    hide Pow;
    Pow5Table(17);
    Pow2Table(17);
  }

  lemma {:induction false} MulCommutes(x: int, y: int)
    ensures x * y == y * x
  {
  }

  // The number the bits of b from position i on stand for.
  function Prefix(b: nat, i: nat): (h: nat) {
    PowPositive(2, i);
    b / Pow(2, i)
  }

  lemma {:induction false} PrefixStep(b: nat, i: nat)
    ensures Pow(2, i) > 0 && Prefix(b, i) == 2 * Prefix(b, i + 1) + b / Pow(2, i) % 2
  {
    PowPositive(2, i);
    PowStep(2, i);
    DivisionsCompose(b, Pow(2, i), 2);
  }

  lemma {:induction false} PrefixAll(b: nat)
    ensures Prefix(b, 0) == b
  {
    PowOne(2);
  }

  lemma {:induction false} TopBit(b: nat) returns (one: nat)
    requires b >= 2 && BitLength(b) >= 1
    ensures BitLength(b) >= 2 && one == Prefix(b, BitLength(b) - 1) == 1
  {
    hide BitLength;
    BitLengthBounds(b);
    PowOne(2);
    var p := Pow(2, BitLength(b) - 1);
    PowStep(2, BitLength(b) - 1);
    UniqueQuotient(b, p, 1, b - p);
    one := 1;
  }

  const POW2: seq<int> := [
    0x1, 0x2, 0x4, 0x8, 0x10, 0x20, 0x40, 0x80,
    0x100, 0x200, 0x400, 0x800, 0x1000, 0x2000, 0x4000, 0x8000,
    0x10000, 0x20000, 0x40000, 0x80000, 0x100000, 0x200000, 0x400000, 0x800000,
    0x1000000, 0x2000000, 0x4000000, 0x8000000, 0x10000000, 0x20000000, 0x40000000, 0x80000000,
    0x100000000]

  lemma {:induction false} Pow2Table(k: nat)
    requires k <= 32
    ensures POW2[k] == Pow(2, k)
  {
    hide Pow;
    PowOne(2);
    if k > 0 {
      Pow2Table(k - 1);
      PowStep(2, k - 1);
    }
  }

  // How far the first 13 powers of 5 are shifted up.
  const SHIFT5: seq<int> := [29, 27, 25, 22, 20, 18, 15, 13, 11, 8, 6, 4, 1]

  lemma {:induction false} BitLengthIs(v: nat, n: nat)
    requires n > 0 && Pow(2, n - 1) <= v < Pow(2, n)
    ensures BitLength(v) == n
  {
    hide BitLength, Pow;
    PowPositive(2, n - 1);
    BitLengthBounds(v);
    if BitLength(v) < n {
      PowMono(2, BitLength(v), n - 1);
    } else if BitLength(v) > n {
      PowMono(2, n, BitLength(v) - 1);
    }
  }

  // The table of inverses belongs to the shifted powers.
  lemma {:induction false} InverseOf5(b: nat, p: Limb)
    requires 1 <= b <= 13 && p == POW5[b - 1] * POW2[SHIFT5[b - 1]]
    ensures IsInverse(p, POW5_INV[b - 1])
  {
  }

  lemma {:induction false} ShiftOf5(b: nat)
    requires 1 <= b <= 13
    ensures BitLength(POW5[b - 1]) == 32 - SHIFT5[b - 1] && POW5[b - 1] * Pow(2, SHIFT5[b - 1]) < BASE
    ensures IsInverse(POW5[b - 1] * Pow(2, SHIFT5[b - 1]), POW5_INV[b - 1])
  {
    hide BitLength, Pow, IsInverse;
    var s := SHIFT5[b - 1];
    Pow2Table(s);
    Pow2Table(32 - s);
    Pow2Table(31 - s);
    BitLengthIs(POW5[b - 1], 32 - s);
    InverseOf5(b, POW5[b - 1] * POW2[s]);
  }

  // pow_ui_inv: the power shifted up to have its top bit set, its inverse, and the shift.
  method PowUiInv(a: Limb, b: nat) returns (r: Limb, rInv: Limb, shift: nat)
    requires a > 0 && Pow(a, b) < BASE
    ensures shift < LIMB_BITS && r == Pow(a, b) * Pow(2, shift) && IsInverse(r, rInv)
  {
    hide Pow, BitLength, IsInverse;
    PowPositive(a, b);
    var p: nat;
    if a == 5 && 1 <= b <= 13 {
      Pow5Table(b);
      ShiftOf5(b);
      p := POW5[b - 1];
      shift := LIMB_BITS - BitLength(p);
      r := p * Pow(2, shift);
      rInv := POW5_INV[b - 1];
    } else {
      p := PowUi(a, b);
      ShiftedUp(p);
      shift := LIMB_BITS - BitLength(p);
      r := p * Pow(2, shift);
      rInv := Udiv1normInit(r);
      InverseIs(r, rInv);
    }
  }

  lemma {:induction false} InverseIs(d: Limb, v: Limb)
    requires d >= BASE / 2 && v == Udiv1normInit(d)
    ensures IsInverse(d, v)
  {
  }

  // clz32 zeros in front: shifted up by as many, the top bit is set.
  lemma {:induction false} ShiftedUp(p: Limb)
    requires p > 0
    ensures 0 <= LIMB_BITS - BitLength(p) < LIMB_BITS
    ensures BASE / 2 <= p * Pow(2, LIMB_BITS - BitLength(p)) < BASE
  {
    hide BitLength, Pow;
    BitLengthLimb(p);
    BitLengthBounds(p);
    var n := BitLength(p);
    var w := Pow(2, LIMB_BITS - n);
    PowPositive(2, LIMB_BITS - n);
    PowAdd(2, n, LIMB_BITS - n);
    PowStep(2, n - 1);
    PowLimb();
    MulStrict(p, Pow(2, n), w);
    MulMono(Pow(2, n - 1), p, w);
    assert 2 * (Pow(2, n - 1) * w) == Pow(2, n) * w by {
      MulAssoc(2, Pow(2, n - 1), w);
    }
  }

  // ---------------------------------------------------------------------------
  // mul_pow

  // The odd part of a radix: as many digits as the table says fit in a limb.
  predicate OddPart(r: nat) {
    r == 1 || (2 <= r <= 36 && DIGITS_PER_LIMB[r - 2] > 0 && Pow(r, DIGITS_PER_LIMB[r - 2]) < BASE)
  }

  lemma {:induction false} FiveIsOddPart()
    ensures OddPart(5)
  {
    hide Pow;
    Pow5Table(13);
  }

  // Limbs that f digits may take.
  function LimbsFor(r: nat, f: nat): (l: nat)
    requires OddPart(r)
  {
    if r == 1 then 0 else Chunks(f, DIGITS_PER_LIMB[r - 2])
  }

  function Chunks(f: nat, d: nat): (l: nat)
    requires d > 0
  {
    (f + d - 1) / d
  }

  function Max0(x: int): (y: nat) {
    if x < 0 then 0 else x
  }

  function Min(a: int, b: int): (m: int) {
    if a <= b then a else b
  }

  function Abs(x: int): (y: nat) {
    if x < 0 then -x else x
  }

  lemma {:induction false} DigitsFit(r: nat, n: nat)
    requires OddPart(r) && r != 1 && n <= DIGITS_PER_LIMB[r - 2]
    ensures 0 < Pow(r, n) < BASE < BASE2
  {
    hide Pow;
    PowPositive(r, n);
    PowMono(r, n, DIGITS_PER_LIMB[r - 2]);
  }

  // Multiplication by r^f, a limb of digits at a time.
  method MulUp(a: Mpb, r: nat, f: nat)
    requires a.Valid() && a.Normal() && OddPart(r) && r != 1 && a.len + LimbsFor(r, f) <= a.tab.Length
    modifies a, a.tab
    ensures a.Valid() && a.Normal() && a.Val() == old(a.Val()) * Pow(r, f) && a.len <= old(a.len) + LimbsFor(r, f)
  {
    hide Pow, Value, Scale, OddPart, Chunks;
    DigitsPositive(r);
    var d := DIGITS_PER_LIMB[r - 2];
    var b, n0, g := 0, 0, f;
    PowOne(r);
    while g != 0
      invariant 0 <= g <= f && a.Valid() && a.Normal()
      invariant a.Val() * Pow(r, g) == old(a.Val()) * Pow(r, f)
      invariant a.len + Chunks(g, d) <= old(a.len) + Chunks(f, d)
      invariant n0 > 0 ==> b == Pow(r, n0) && 0 < b < BASE
    {
      var n := if g < d then g else d;
      DigitsFit(r, n);
      if n != n0 {
        b := PowUi(r, n);
        n0 := n;
      }
      MulLimb(a, b, r, g, n, d);
      PowAdd(r, n, g - n);
      g := g - n;
    }
  }

  lemma {:induction false} DigitsPositive(r: nat)
    requires OddPart(r) && r != 1
    ensures 2 <= r <= 36 && DIGITS_PER_LIMB[r - 2] > 0
  {
  }

  method MulLimb(a: Mpb, b: Limb, ghost r: nat, ghost g: nat, ghost n: nat, ghost d: nat)
    requires a.Valid() && a.Normal() && b > 0 && d > 0 && a.len + Chunks(g, d) <= a.tab.Length
    requires d > 0 && 0 < n <= g && n == (if g < d then g else d) && b == Pow(r, n)
    modifies a, a.tab
    ensures a.Valid() && a.Normal() && a.Val() == old(a.Val()) * b
    ensures a.Val() * Pow(r, g - n) == old(a.Val()) * Pow(r, g)
    ensures a.len <= old(a.len) + 1 && Chunks(g - n, d) + 1 == Chunks(g, d)
  {
    hide Pow, Value, Scale, Chunks;
    ghost var v := a.Val();
    PowAdd(r, n, g - n);
    MulAssoc(v, Pow(r, n), Pow(r, g - n));
    OneLimbLess(g, n, d);
    var h := Mul1(a.tab, a.len, b, 0);
    MulMono(1, b, v);
    if h != 0 {
      a.tab[a.len] := h;
      assert a.tab[..a.len + 1] == a.tab[..a.len] + [h];
      ValueSnoc(a.tab[..a.len], h);
      ScaleIsPow(a.len);
      MulMono(1, h, Scale(a.len));
      a.len := a.len + 1;
    }
  }

  lemma {:induction false} OneLimbLess(g: nat, n: nat, d: nat)
    requires d > 0 && 0 < n <= g && n == if g < d then g else d
    ensures Chunks(g - n, d) + 1 == Chunks(g, d)
  {
    if g >= d {
      var q, m := DivMod(g - n + d - 1, d);
      assert (q + 1) * d == q * d + d;
      UniqueQuotient(g + d - 1, d, q + 1, m);
    } else {
      UniqueQuotient(g - n + d - 1, d, 0, d - 1);
      assert 1 * d == d;
      UniqueQuotient(g + d - 1, d, 1, g - 1);
    }
  }

  // Division by r^f, a limb of digits at a time. The result tells whether a remainder was
  // left in some step.
  method DivDown(a: Mpb, r: nat, f: nat) returns (rem: bool)
    requires a.Valid() && a.Normal() && OddPart(r) && r != 1
    modifies a, a.tab
    ensures a.Valid() && a.Normal() && Pow(r, f) > 0 && a.len <= old(a.len)
    ensures a.Val() == old(a.Val()) / Pow(r, f) && rem == (old(a.Val()) % Pow(r, f) != 0)
  {
    hide Pow, Value, Scale, OddPart, IsInverse;
    ghost var v := a.Val();
    DigitsPositive(r);
    var d := DIGITS_PER_LIMB[r - 2];
    var n0, g := 0, f;
    var shift: nat := 0;
    var b: Limb, bInv: Limb := 0, 0;
    rem := false;
    PowOne(r);
    PowPositive(r, f);
    DivideByOne(v);
    while g != 0
      invariant 0 <= g <= f && a.Valid() && a.Normal() && Pow(r, f - g) > 0 && a.len <= old(a.len)
      invariant a.Val() == v / Pow(r, f - g) && rem == (v % Pow(r, f - g) != 0)
      invariant n0 > 0 ==> shift < LIMB_BITS && b == Pow(r, n0) * Pow(2, shift) && IsInverse(b, bInv)
    {
      var n := if g < d then g else d;
      DigitsFit(r, n);
      if n != n0 {
        b, bInv, shift := PowUiInv(r, n);
        n0 := n;
      }
      ghost var w, p := a.Val(), Pow(r, n);
      var m := Div1norm(a.tab, a.len, b, 0, bInv, shift, Pow(r, n));
      UniqueQuotient(w, p, a.Val(), m);
      rem := rem || m != 0;
      a.Renorm();
      DivisionsCompose(v, Pow(r, f - g), p);
      PowAdd(r, f - g, n);
      g := g - n;
    }
  }

  // w is v * 2^k divided by d, with the lowest bit set for a remainder.
  ghost predicate StickyQuotient(v: nat, k: nat, d: nat, w: nat) {
    d > 0 && w == Sticky(v * Pow(2, k), d)
  }

  // mul_pow: a * 2^-eOffset is the old number times radix^f, where radix = r * 2^radixShift.
  // It is exact for f >= 0; for f < 0 what the divisions lose is kept in the lowest bit, and
  // enough bits are left below the ones that are needed. k is the number of bits the
  // number has been shifted up.
  method MulPow(a: Mpb, r: nat, radixShift: nat, f: int, isInt: bool, e: int) returns (eOffset: int, ghost k: nat)
    requires a.Valid() && a.Normal() && a.Val() > 0 && OddPart(r) && (!isInt ==> e >= 0)
    requires f >= 0 ==> a.len + LimbsFor(r, f) <= a.tab.Length
    requires f < 0 && r != 1 ==>
               a.len + LimbsFor(r, -f) + Headroom(r, radixShift, f, isInt, e) / LIMB_BITS + 1 <= a.tab.Length
    modifies a, a.tab
    ensures a.Valid() && a.Normal() && a.Val() > 0
    ensures f >= 0 || r == 1 ==> a.Val() == old(a.Val()) * Pow(r, Max0(f)) && eOffset == -f * radixShift
    ensures f >= 0 || r == 1 ==> a.len <= old(a.len) + LimbsFor(r, Max0(f))
    ensures f < 0 && r != 1 ==>
              && StickyQuotient(old(a.Val()), k, Pow(r, -f), a.Val()) && eOffset == -f * radixShift + k
              && (if isInt then eOffset >= e + 2 else a.Val() >= Pow(2, e))
              && a.len <= old(a.len) + LimbsFor(r, -f) + Headroom(r, radixShift, f, isInt, e) / LIMB_BITS + 1
  {
    hide Pow, Value, Scale, OddPart, Sticky;
    eOffset, k := -f * radixShift, 0;
    if r != 1 {
      DigitsPositive(r);
      if f >= 0 {
        PowPositive(r, f);
        MulPositive(a.Val(), Pow(r, f));
        MulUp(a, r, f);
      } else {
        eOffset, k := DivideWithSticky(a, r, radixShift, -f, isInt, e);
      }
    } else {
      OneToThe(Max0(f));
      DivideByOne(a.Val());
    }
  }

  lemma {:induction false} OneToThe(n: nat)
    ensures Pow(1, n) == 1
  {
    if n > 0 {
      OneToThe(n - 1);
    }
  }

  // A bound on the extra bits mul_pow asks for.
  function Headroom(r: nat, radixShift: nat, f: int, isInt: bool, e: int): (n: nat)
    requires OddPart(r) && f < 0
  {
    if isInt then Max0(2 + e - (-f * radixShift + LimbsFor(r, -f) * LIMB_BITS)) else Max0(e)
  }

  method DivideWithSticky(a: Mpb, r: nat, radixShift: nat, f: int, isInt: bool, e: int) returns (eOffset: int, ghost k: nat)
    requires a.Valid() && a.Normal() && a.Val() > 0 && OddPart(r) && r != 1 && f > 0 && (!isInt ==> e >= 0)
    requires a.len + LimbsFor(r, f) + Headroom(r, radixShift, -f, isInt, e) / LIMB_BITS + 1 <= a.tab.Length
    modifies a, a.tab
    ensures a.Valid() && a.Normal() && a.Val() > 0
    ensures Pow(r, f) > 0 && a.Val() == Sticky(old(a.Val()) * Pow(2, k), Pow(r, f)) && eOffset == f * radixShift + k
    ensures if isInt then eOffset >= e + 2 else a.Val() >= Pow(2, e)
    ensures a.len <= old(a.len) + LimbsFor(r, f) + Headroom(r, radixShift, -f, isInt, e) / LIMB_BITS + 1
  {
    hide Pow, Value, Scale, OddPart, Sticky;
    ghost var v := a.Val();
    var l := LimbsFor(r, f);
    SomeLimbs(r, f);
    eOffset := f * radixShift + l * LIMB_BITS;
    var extraBits := 0;
    if !isInt {
      // at least e bits are needed in the final result for rounding
      var log := a.FloorLog2();
      extraBits := Max0(e - log);
      EnoughBits(v, log, extraBits, e, l, r, f);
    } else {
      // at least two extra bits are needed in the final result for rounding
      extraBits := Max0(2 + e - eOffset);
    }
    eOffset := eOffset + extraBits;
    k := l * LIMB_BITS + extraBits;
    ShiftLimbs(l, extraBits, Headroom(r, radixShift, -f, isInt, e));
    a.ShrRound(-(l * LIMB_BITS + extraBits), TowardZero);
    PowPositive(2, k);
    MulPositive(v, Pow(2, k));
    ghost var w := a.Val();
    var rem := DivDown(a, r, f);
    ghost var q, m := DivMod(w, Pow(r, f));
    StickyOf(w, Pow(r, f), q, m);
    LowBit(a.tab[..a.len]);
    if rem && a.tab[0] % 2 == 0 {
      SetLowBit(a);
    }
    StickyPositive(w, Pow(r, f));
  }

  lemma {:induction false} SomeLimbs(r: nat, f: nat)
    requires OddPart(r) && r != 1 && f > 0
    ensures LimbsFor(r, f) > 0
  {
    var d := DIGITS_PER_LIMB[r - 2];
    var q, m := DivMod(f + d - 1, d);
    QuotientAtLeast(f + d - 1, d, 1, q, m);
  }

  // if (rem != 0) tab[0] |= 1
  method SetLowBit(a: Mpb)
    requires a.Valid() && a.Normal() && a.tab[0] % 2 == 0
    modifies a.tab
    ensures a.Valid() && a.Normal() && a.Val() == old(a.Val()) + 1
  {
    hide Value, Scale;
    ghost var s := a.tab[..a.len];
    a.tab[0] := a.tab[0] + 1;
    assert a.tab[..a.len] == [s[0] + 1] + s[1..] && s == [s[0]] + s[1..];
    ValueConcat([s[0] + 1], s[1..]);
    ValueConcat([s[0]], s[1..]);
    ValueOne(s[0] + 1);
    ValueOne(s[0]);
  }

  lemma {:induction false} LowBit(s: seq<Limb>)
    requires |s| > 0
    ensures Value(s) % 2 == s[0] % 2
  {
  }

  lemma {:induction false} ShiftLimbs(l: nat, extra: nat, head: nat)
    requires extra <= head
    ensures (l * LIMB_BITS + extra) / LIMB_BITS <= l + head / LIMB_BITS
  {
  }

  lemma {:induction false} StickyPositive(n: nat, d: nat)
    requires n > 0 && d > 0
    ensures Sticky(n, d) > 0
  {
    if n < d {
      SmallQuotient(n, d);
    } else {
      var q, r := DivMod(n, d);
    }
  }

  // The quotient keeps at least e + 1 bits.
  lemma {:induction false} EnoughBits(v: nat, log: nat, extra: nat, e: nat, l: nat, r: nat, f: nat)
    requires Pow(2, log) <= v && extra == Max0(e - log) && OddPart(r) && r != 1 && l == LimbsFor(r, f)
    ensures Pow(r, f) > 0 && Pow(2, e) <= Sticky(v * Pow(2, l * LIMB_BITS + extra), Pow(r, f))
  {
    hide Pow, OddPart, Sticky;
    DigitsPositive(r);
    PowPositive(r, f);
    PowPositive(2, extra);
    PowPositive(2, l * LIMB_BITS);
    PowAdd(2, l * LIMB_BITS, extra);
    PowAdd(2, log, extra);
    PowMono(2, e, log + extra);
    MulMono(Pow(2, log), v, Pow(2, extra));
    RadixBelowLimbs(r, f, l);
    var w, x, n := v * Pow(2, extra), Pow(2, l * LIMB_BITS), v * Pow(2, l * LIMB_BITS + extra);
    assert n == w * x by {
      assert Pow(2, l * LIMB_BITS + extra) == Pow(2, extra) * x;
      MulAssoc(v, Pow(2, extra), x);
    }
    MulMono(Pow(r, f), x, Pow(2, e));
    MulMono(Pow(2, e), w, x);
    var q, m := DivMod(n, Pow(r, f));
    QuotientAtLeast(n, Pow(r, f), Pow(2, e), q, m);
    StickyOf(n, Pow(r, f), q, m);
  }

  // f digits fit in the limbs counted for them.
  lemma {:induction false} RadixBelowLimbs(r: nat, f: nat, l: nat)
    requires OddPart(r) && r != 1 && l == LimbsFor(r, f)
    ensures Pow(r, f) <= Pow(2, l * LIMB_BITS)
  {
    hide Pow;
    var d := DIGITS_PER_LIMB[r - 2];
    var q, m := DivMod(f + d - 1, d);
    assert f <= l * d;
    PowMono(r, f, l * d);
    PowMul(r, d, l);
    PowMul(2, LIMB_BITS, l);
    PowLimb();
    PowPositive(r, d);
    assert d * l == l * d && LIMB_BITS * l == l * LIMB_BITS;
    PowBaseMono(Pow(r, d), BASE, l);
  }
}
