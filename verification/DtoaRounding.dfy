// mul_pow_round, round_to_d and mul_pow_round_to_d of dtoa.c: the exact value of
// m * 2^e * radix^f, rounded to an integer or to a double.
module DtoaRounding {
  import opened Powers
  import opened Limbs
  import opened Rounding
  import opened Bignum
  import opened Scaling
  import opened Doubles

  // m * 2^e * radix^f for the radix r * 2^rs
  ghost function Exact(m: nat, e: int, r: nat, rs: nat, f: int): (x: real)
    requires r > 0
  {
    PowPositive(2, rs);
    MulPositive(r, Pow(2, rs));
    (m as real) * (RPow(2, e) * RPow(r * Pow(2, rs), f))
  }

  // The odd part and the powers of two, apart.
  lemma {:induction false} ExactParts(m: nat, e: int, r: nat, rs: nat, f: int)
    requires r > 0
    ensures Exact(m, e, r, rs, f) == (m as real) * (RPow(r, f) * RPow(2, e + rs * f))
  {
    hide RPow, Pow;
    PowPositive(2, rs);
    RPowBase(r, Pow(2, rs), f);
    RPowMul(2, rs, f);
    RPowAdd(2, e, rs * f);
    var p, q, x, y := RPow(2, e), RPow(2, rs * f), RPow(r, f), RPow(r * Pow(2, rs), f);
    assert p * y == x * (p * q) by {
      RMulAssoc(p, x, q);
      RMulAssoc(x, p, q);
      assert p * x == x * p;
    }
  }

  // An exact product, divided by a power of two.
  lemma {:induction false} RoundExact(mode: Mode, m: nat, e: int, r: nat, rs: nat, f: int, v: nat, shift: int)
    requires r > 0 && v == m * Pow(r, Max0(f)) && (f >= 0 || r == 1) && shift == -e - f * rs
    ensures shift >= 0 ==> Pow(2, shift) > 0 && RoundReal(mode, Exact(m, e, r, rs, f)) == RoundDiv(mode, v, Pow(2, shift))
    ensures shift < 0 ==> RoundReal(mode, Exact(m, e, r, rs, f)) == v * Pow(2, -shift)
  {
    hide RPow, Pow, RoundReal, RoundDiv;
    ExactParts(m, e, r, rs, f);
    OddPartReal(r, f);
    var x := RPow(r, f);
    RealProduct(m, Pow(r, Max0(f)));
    RMulAssoc(m as real, x, RPow(2, e + rs * f));
    assert e + rs * f == -shift;
    var y, z := Exact(m, e, r, rs, f), RPow(2, -shift);
    assert y == (v as real) * z;
    if shift >= 0 {
      RPowDivide(2, shift, v as real);
      RoundQuotient(mode, v, Pow(2, shift));
      var w := (v as real) / (Pow(2, shift) as real);
      assert w == y;
    } else {
      RPowNat(2, -shift);
      RealProduct(v, Pow(2, -shift));
      RoundInteger(mode, v * Pow(2, -shift));
      var w := (v * Pow(2, -shift)) as real;
      assert w == y;
    }
  }

  lemma {:induction false} OddPartReal(r: nat, f: int)
    requires r > 0 && (f >= 0 || r == 1)
    ensures RPow(r, f) == Pow(r, Max0(f)) as real
  {
    hide RPow, Pow;
    if f >= 0 {
      RPowNat(r, f);
    } else {
      ROneToThe(f);
      RPowZero(1);
      PowOne(1);
    }
  }

  lemma {:induction false} ROneToThe(k: int)
    ensures RPow(1, k) == 1.0
    decreases if k >= 0 then k else -k
  {
    if k > 0 {
      ROneToThe(k - 1);
    } else if k < 0 {
      ROneToThe(k + 1);
    }
  }

  // A quotient with its sticky bit stands for the exact value, as long as it loses two more
  // bits.
  lemma {:induction false} RoundSticky(mode: Mode, m: nat, e: int, r: nat, rs: nat, f: int, k: nat, shift: nat)
    requires r > 0 && f < 0 && shift == -f * rs + k - e && shift >= 2 && Pow(r, -f) > 0
    ensures Pow(2, shift) > 0
    ensures RoundReal(mode, Exact(m, e, r, rs, f)) == RoundDiv(mode, Sticky(m * Pow(2, k), Pow(r, -f)), Pow(2, shift))
  {
    hide RPow, Pow, RoundReal, RoundDiv, Sticky;
    var a, d, p := m * Pow(2, k), Pow(r, -f), Pow(2, shift);
    PowPositive(2, shift);
    MulPositive(d, p);
    ExactQuotient(m, e, r, rs, f, k, shift);
    RoundQuotient(mode, a, d * p);
    FourDivides(shift);
    StickyRounds(mode, a, d, p);
  }

  lemma {:induction false} FourDivides(shift: nat)
    requires shift >= 2
    ensures Pow(2, shift) >= 4 && Pow(2, shift) % 4 == 0
  {
    PowPositive(2, shift - 2);
    PowStep(2, shift - 2);
    PowStep(2, shift - 1);
  }

  lemma {:induction false} ExactQuotient(m: nat, e: int, r: nat, rs: nat, f: int, k: nat, shift: int)
    requires r > 0 && f < 0 && shift == -f * rs + k - e && shift >= 0
    ensures Pow(r, -f) * Pow(2, shift) > 0
    ensures Exact(m, e, r, rs, f) == ((m * Pow(2, k)) as real) / ((Pow(r, -f) * Pow(2, shift)) as real)
  {
    hide RPow, Pow;
    ExactParts(m, e, r, rs, f);
    PowPositive(r, -f);
    PowPositive(2, shift);
    MulPositive(Pow(r, -f), Pow(2, shift));
    RealProduct(Pow(r, -f), Pow(2, shift));
    RealProduct(m, Pow(2, k));
    RPowNat(r, -f);
    RPowNat(2, shift);
    RPowNat(2, k);
    RPowInverse(r, f);
    RPowAdd(2, e + rs * f, shift);
    assert e + rs * f + shift == k;
    var x, y, z, w := RPow(r, f), RPow(2, e + rs * f), RPow(r, -f), RPow(2, shift);
    // (m * x * y) * (z * w) == m * 2^k, because x * z == 1 and y * w == 2^k
    assert (z * w) * ((m as real) * (x * y)) == (m as real) * RPow(2, k) by {
      RSwap4(z, w, x, y);
      assert (z * w) * (x * y) == (z * x) * (w * y);
      assert z * x == x * z == 1.0;
      assert w * y == y * w;
      RMulAssoc(z * w, m as real, x * y);
      RMulAssoc(m as real, z * w, x * y);
      assert (z * w) * (m as real) == (m as real) * (z * w);
    }
    RQuotientIs((m as real) * (x * y), (m as real) * RPow(2, k), z * w);
  }

  lemma {:induction false} RQuotientIs(x: real, n: real, d: real)
    requires d > 0.0 && d * x == n
    ensures x == n / d
  {
    RCancel(n, d);
    RMulInjective(d, x, n / d);
  }

  // Room for the limbs that come up.
  predicate RoomToRound(size: nat, e: int, r: nat, rs: nat, f: int)
    requires OddPart(r)
  {
    && 2 <= size
    && (f >= 0 || r == 1 ==> 3 + LimbsFor(r, Max0(f)) + Max0(e + f * rs) / LIMB_BITS <= size)
    && (f < 0 && r != 1 ==> 3 + LimbsFor(r, -f) + Headroom(r, rs, f, true, e) / LIMB_BITS <= size)
  }

  // mul_pow_round: exactly round(m * 2^e * radix^f), in all three modes.
  method MulPowRound(a: Mpb, m: nat, e: int, r: nat, rs: nat, f: int, mode: Mode)
    requires 0 < m < BASE2 && OddPart(r) && r > 0 && RoomToRound(a.tab.Length, e, r, rs, f)
    modifies a, a.tab
    ensures a.Valid() && a.Normal() && a.Val() == RoundReal(mode, Exact(m, e, r, rs, f))
  {
    hide Pow, RPow, Value, Scale, OddPart, RoundReal, RoundDiv, Exact, Sticky;
    a.SetU64(m);
    LimbsOfOne(r, f);
    var eOffset, k := MulPow(a, r, rs, f, true, e);
    var shift := -e + eOffset;
    ghost var v := a.Val();
    a.ShrRound(shift, mode);
    if f >= 0 || r == 1 {
      RoundExact(mode, m, e, r, rs, f, v, shift);
    } else {
      RoundSticky(mode, m, e, r, rs, f, k, shift);
    }
  }

  lemma {:induction false} LimbsOfOne(r: nat, f: int)
    requires OddPart(r)
    ensures r == 1 ==> LimbsFor(r, Max0(f)) == 0
  {
  }

  // ---------------------------------------------------------------------------
  // Rounding to a double

  const TWO53 := 0x20_0000_0000_0000

  // The mantissa round_to_d computes from the integer v: its highest bit is at position
  // "log", and "prec" bits are kept.
  function Kept(v: nat, log: nat, prec: int): (m: nat) {
    var shift := log + 1 - prec;
    PowPositive(2, Max0(shift));
    if shift < 0 then v * Pow(2, -shift) else RoundDiv(NearestEven, v, Pow(2, shift))
  }

  // It fits 53 bits, with room for an overflow.
  lemma {:induction false} KeptFits(v: nat, log: nat, prec: int)
    requires Pow(2, log) <= v < Pow(2, log + 1) && prec <= 53
    ensures Kept(v, log, prec) * Pow(2, 53 - prec) <= TWO53 && Kept(v, log, prec) < BASE2
  {
    hide Pow, RoundDiv;
    var shift := log + 1 - prec;
    var m, q := Kept(v, log, prec), Pow(2, 53 - prec);
    PowPositive(2, 53 - prec);
    PowPositive(2, Max0(shift));
    Two53();
    if prec < 0 {
      TinyRoundsToZero(v, log, shift);
    } else {
      PowAdd(2, prec, 53 - prec);
      assert m <= Pow(2, prec) by {
        if shift < 0 {
          PowAdd(2, log + 1, -shift);
          MulMono(v, Pow(2, log + 1), Pow(2, -shift));
        } else {
          PowAdd(2, prec, shift);
          RoundDivBound(v, Pow(2, shift), Pow(2, prec));
        }
      }
      MulMono(m, Pow(2, prec), q);
      MulMono(1, q, m);
    }
  }

  lemma {:induction false} Two53()
    ensures Pow(2, 53) == TWO53
  {
    assert Pow(2, 10) == 1024;
    PowAdd(2, 10, 10);
    PowAdd(2, 20, 20);
    PowAdd(2, 40, 10);
    assert Pow(2, 3) == 8;
    PowAdd(2, 50, 3);
  }

  // Less than half rounds to zero.
  lemma {:induction false} TinyRoundsToZero(v: nat, log: nat, shift: nat)
    requires v < Pow(2, log + 1) && shift > log + 1 && Pow(2, shift) > 0
    ensures RoundDiv(NearestEven, v, Pow(2, shift)) == 0
  {
    hide Pow;
    PowMono(2, log + 1, shift - 1);
    PowStep(2, shift - 1);
    SmallQuotient(v, Pow(2, shift));
  }

  lemma {:induction false} RoundDivBound(v: nat, d: nat, k: nat)
    requires d > 0 && v <= k * d
    ensures RoundDiv(NearestEven, v, d) <= k
  {
    var q, r := DivMod(v, d);
    if q >= k {
      MulMono(k, q, d);
      assert r == 0 && q * d == k * d;
      if q > k {
        MulStrict(k, q, d);
      }
    }
  }

  // Two numbers with the same highest bit are dealt with in the same way.
  predicate HighestBit(v: nat, log: nat) {
    Pow(2, log) <= v < Pow(2, log + 1)
  }

  // round_to_d on a number that is not zero. The last shift of the C code is by at most 63
  // when the exponent is not far below that of the least double; the mantissa is zero then.
  method RoundToD(a: Mpb, eOffset: int) returns (m: nat, e: int, ghost log: nat)
    requires a.Valid() && a.Normal() && a.Val() > 0 && a.tab.Length >= 4
    modifies a, a.tab
    ensures HighestBit(old(a.Val()), log)
    ensures var b := log + 1 - eOffset; (m, e) == Normalize(Kept(old(a.Val()), log, Precision(b)), b)
  {
    hide Pow, Value, Scale, RoundDiv, Normalize, Kept;
    var position := a.FloorLog2();
    log := position;
    e := position + 1 - eOffset;
    var prec := 53;
    if e < MIN_EXPONENT {
      // subnormal result or zero
      prec := 53 - (MIN_EXPONENT - e);
    }
    m := KeepBits(a, position, prec);
    m, e := MoveUpMantissa(m, e, prec);
  }

  // The mantissa, rounded to "prec" bits.
  method KeepBits(a: Mpb, log: nat, prec: int) returns (m: nat)
    requires a.Valid() && a.Normal() && a.Val() > 0 && a.tab.Length >= 4 && prec <= 53
    requires HighestBit(a.Val(), log) && log / LIMB_BITS == a.len - 1
    modifies a, a.tab
    ensures m == Kept(old(a.Val()), log, prec)
  {
    hide Pow, Value, Scale, RoundDiv;
    ghost var v := a.Val();
    SmallNumber(v, log, a.len, prec);
    KeptFits(v, log, prec);
    a.ShrRound(log + 1 - prec, NearestEven);
    ghost var kept := a.Val();
    assert kept == Kept(v, log, prec) && kept < BASE2;
    m := a.GetU64();
  }

  method MoveUpMantissa(q: nat, e0: int, prec: int) returns (m: nat, e: int)
    requires prec == Precision(e0)
    ensures (m, e) == Normalize(q, e0)
  {
    hide Pow;
    m, e := q * Pow(2, 53 - prec), e0;
    // mantissa overflow due to rounding
    if m >= TWO53 {
      m := m / 2;
      e := e + 1;
    }
  }

  // A shift to the left is needed only for numbers of at most two limbs.
  lemma {:induction false} SmallNumber(v: nat, log: nat, len: nat, prec: int)
    requires log / LIMB_BITS == len - 1 && prec <= 53
    ensures log + 1 - prec < 0 ==> len + (prec - log - 1) / LIMB_BITS + 1 <= 4
  {
  }

  lemma {:induction false} ExactShift(m: nat, e: int, j: int, r: nat, rs: nat, f: int)
    requires r > 0
    ensures Exact(m, e + j, r, rs, f) == Exact(m, e, r, rs, f) * RPow(2, j)
  {
    hide RPow, Pow;
    PowPositive(2, rs);
    MulPositive(r, Pow(2, rs));
    RPowAdd(2, e, j);
    var p, q, y, w := RPow(2, e), RPow(2, j), RPow(r * Pow(2, rs), f), m as real;
    assert w * ((p * q) * y) == (w * (p * y)) * q by {
      RMulAssoc(p, q, y);
      RMulAssoc(p, y, q);
      assert q * y == y * q;
      RMulAssoc(w, p * y, q);
    }
  }

  // The binade of x, from the highest bit of x * 2^j.
  lemma {:induction false} BinadeOf(x: real, y: real, j: int, log: nat)
    requires y == x * RPow(2, j) && Pow(2, log) as real <= y < Pow(2, log + 1) as real
    ensures InBinade(x, log + 1 - j)
  {
    hide RPow, Pow;
    RPowNat(2, log);
    RPowNat(2, log + 1);
    RPowAdd(2, log, -j);
    RPowAdd(2, log + 1, -j);
    RPowInverse(2, j);
    var p, q, z := RPow(2, j), RPow(2, -j), RPow(2, log);
    var w := RPow(2, log + 1);
    assert y * q == x by {
      RMulAssoc(x, p, q);
    }
    var lo, hi := RPow(2, log - j), RPow(2, log + 1 - j);
    RScaledBetween(z, y, w, q, lo, x, hi);
    assert log - j == (log + 1 - j) - 1;
  }

  // An exact number.
  lemma {:induction false} ExactRoundsTo(x: real, v: nat, log: nat, eOffset: int, m: nat, e: int)
    requires HighestBit(v, log) && v as real == x * RPow(2, eOffset)
    requires var b := log + 1 - eOffset; (m, e) == Normalize(Kept(v, log, Precision(b)), b)
    ensures RoundsTo(x, m, e)
  {
    hide RPow, Pow, RoundReal, RoundDiv, Normalize;
    var b := log + 1 - eOffset;
    var shift := log + 1 - Precision(b);
    BinadeOf(x, v as real, eOffset, log);
    assert Precision(b) - b == eOffset - shift;
    RPowAdd(2, eOffset, -shift);
    var y := Scaled(x, b);
    RMulAssoc(x, RPow(2, eOffset), RPow(2, -shift));
    assert y == (v as real) * RPow(2, -shift);
    if shift >= 0 {
      RPowDivide(2, shift, v as real);
      RoundQuotient(NearestEven, v, Pow(2, shift));
      var w := (v as real) / (Pow(2, shift) as real);
      assert w == y;
    } else {
      RPowNat(2, -shift);
      RealProduct(v, Pow(2, -shift));
      RoundInteger(NearestEven, v * Pow(2, -shift));
      var w := (v * Pow(2, -shift)) as real;
      assert w == y;
    }
    assert RoundReal(NearestEven, y) == Kept(v, log, Precision(b));
  }

  // A quotient with a sticky bit, of at least 56 bits.
  lemma {:induction false} QuotientRoundsTo(x: real, n: nat, d: nat, log: nat, eOffset: int, m: nat, e: int)
    requires d > 0 && x * RPow(2, eOffset) == (n as real) / (d as real)
    requires var v := Sticky(n, d);
             && HighestBit(v, log) && v >= Pow(2, 55)
             && var b := log + 1 - eOffset; (m, e) == Normalize(Kept(v, log, Precision(b)), b)
    ensures RoundsTo(x, m, e)
  {
    hide RPow, Pow, RoundReal, RoundDiv, Normalize, Sticky, Scaled;
    var v, b := Sticky(n, d), log + 1 - eOffset;
    var shift := log + 1 - Precision(b);
    AtLeast56(v, log);
    // the binade
    StickyTopBit(n, d, log);
    QuotientBetween(n, d, Pow(2, log), Pow(2, log + 1));
    var y := x * RPow(2, eOffset);
    BinadeOf(x, y, eOffset, log);
    // the mantissa
    PowPositive(2, shift);
    MulPositive(d, Pow(2, shift));
    ScaledQuotient(x, n, d, b, eOffset, shift);
    RoundQuotient(NearestEven, n, d * Pow(2, shift));
    FourDivides(shift);
    StickyRounds(NearestEven, n, d, Pow(2, shift));
    assert RoundReal(NearestEven, Scaled(x, b)) == Kept(v, log, Precision(b));
  }

  lemma {:induction false} ScaledQuotient(x: real, n: nat, d: nat, b: int, eOffset: int, shift: int)
    requires shift >= 0 && d > 0 && x * RPow(2, eOffset) == (n as real) / (d as real) && Precision(b) - b == eOffset - shift
    ensures d * Pow(2, shift) > 0 && Scaled(x, b) == (n as real) / ((d * Pow(2, shift)) as real)
  {
    hide RPow, Pow;
    PowPositive(2, shift);
    MulPositive(d, Pow(2, shift));
    RealProduct(d, Pow(2, shift));
    RPowNat(2, shift);
    RPowAdd(2, eOffset, -shift);
    RPowInverse(2, shift);
    ScaledIs(x, b);
    var p, q, r, y := RPow(2, eOffset), RPow(2, -shift), RPow(2, shift), Scaled(x, b);
    RCancel(n as real, d as real);
    // (d * r) * (x * (p * q)) == d * (x * p), because r * q == 1
    RMulAssoc(x, p, q);
    assert y == (x * p) * q;
    Regroup(d as real, r, x * p, q);
    RQuotientIs(y, n as real, (d as real) * r);
  }

  lemma {:induction false} Regroup(d: real, r: real, w: real, q: real)
    requires r * q == 1.0
    ensures (d * r) * (w * q) == d * w
  {
    RSwap4(d, r, w, q);
  }

  lemma {:induction false} StickyRoundsTo(v0: nat, r: nat, rs: nat, f: int, k: nat, log: nat, eOffset: int, m: nat, e: int)
    requires r > 0 && f < 0 && eOffset == -f * rs + k && eOffset >= 0 && Pow(r, -f) > 0
    requires var v := Sticky(v0 * Pow(2, k), Pow(r, -f));
             && HighestBit(v, log) && v >= Pow(2, 55)
             && var b := log + 1 - eOffset; (m, e) == Normalize(Kept(v, log, Precision(b)), b)
    ensures RoundsTo(Exact(v0, 0, r, rs, f), m, e)
  {
    hide RPow, Pow, Normalize, Sticky, Exact, RoundsTo, Kept, HighestBit;
    ExactShift(v0, 0, eOffset, r, rs, f);
    ExactQuotient(v0, eOffset, r, rs, f, k, 0);
    PowOne(2);
    DivideByOne(Pow(r, -f));
    QuotientRoundsTo(Exact(v0, 0, r, rs, f), v0 * Pow(2, k), Pow(r, -f), log, eOffset, m, e);
  }

  lemma {:induction false} AtLeast56(v: nat, log: nat)
    requires HighestBit(v, log) && v >= Pow(2, 55)
    ensures log >= 55
  {
    if log < 55 {
      PowMono(2, log + 1, 55);
    }
  }

  // The sticky bit does not change the highest bit.
  lemma {:induction false} StickyTopBit(n: nat, d: nat, log: nat)
    requires d > 0 && HighestBit(Sticky(n, d), log) && log >= 1
    ensures Pow(2, log) * d <= n < Pow(2, log + 1) * d
  {
    hide Pow, Sticky;
    var q, r := DivMod(n, d);
    StickyOf(n, d, q, r);
    PowStep(2, log - 1);
    var p := Pow(2, log);
    assert p <= q;
    MulMono(p, q, d);
    MulMono(q + 1, Pow(2, log + 1), d);
    assert (q + 1) * d == q * d + d;
  }

  lemma {:induction false} QuotientBetween(n: nat, d: nat, lo: nat, hi: nat)
    requires d > 0 && lo * d <= n < hi * d
    ensures lo as real <= (n as real) / (d as real) < hi as real
  {
    RealProduct(lo, d);
    RealProduct(hi, d);
    RQuotientBetween(n as real, d as real, lo as real, hi as real);
  }

  lemma {:induction false} RQuotientBetween(n: real, d: real, lo: real, hi: real)
    requires d > 0.0 && lo * d <= n < hi * d
    ensures lo <= n / d < hi
  {
    var x := n / d;
    RCancel(n, d);
    assert x * d == n;
    if x < lo {
      RMulStrict(x, lo, d);
    } else if x >= hi {
      RMulMono(hi, x, d);
    }
  }

  // Room for the limbs of mul_pow_round_to_d.
  predicate RoomToDouble(size: nat, len: nat, r: nat, rs: nat, f: int)
    requires OddPart(r)
  {
    && 4 <= size
    && (f >= 0 || r == 1 ==> len + LimbsFor(r, Max0(f)) <= size)
    && (f < 0 && r != 1 ==> len + LimbsFor(r, -f) + 2 <= size)
  }

  // mul_pow_round_to_d: the double nearest to a * radix^f.
  method MulPowRoundToD(a: Mpb, r: nat, rs: nat, f: int) returns (m: nat, e: int)
    requires a.Valid() && a.Normal() && a.Val() > 0 && OddPart(r) && r > 0 && RoomToDouble(a.tab.Length, a.len, r, rs, f)
    modifies a, a.tab
    ensures RoundsTo(Exact(old(a.Val()), 0, r, rs, f), m, e)
  {
    hide Pow, RPow, Value, Scale, OddPart, RoundReal, RoundDiv, Exact, Sticky, Kept, Normalize, RoundsTo, HighestBit;
    ghost var v0 := a.Val();
    LimbsOfOne(r, f);
    var eOffset, k := MulPow(a, r, rs, f, false, 55);
    ghost var v := a.Val();
    ghost var log;
    m, e, log := RoundToD(a, eOffset);
    if f >= 0 || r == 1 {
      ExactIs(v0, r, rs, f, v, eOffset);
      ExactRoundsTo(Exact(v0, 0, r, rs, f), v, log, eOffset, m, e);
    } else {
      OffsetPositive(f, rs, k);
      StickyRoundsTo(v0, r, rs, f, k, log, eOffset, m, e);
    }
  }

  lemma {:induction false} OffsetPositive(f: int, rs: nat, k: nat)
    requires f < 0
    ensures -f * rs + k >= 0
  {
    MulMono(0, -f, rs);
  }

  lemma {:induction false} ExactIs(v0: nat, r: nat, rs: nat, f: int, v: nat, eOffset: int)
    requires r > 0 && (f >= 0 || r == 1) && v == v0 * Pow(r, Max0(f)) && eOffset == -f * rs
    ensures v as real == Exact(v0, 0, r, rs, f) * RPow(2, eOffset)
  {
    hide RPow, Pow;
    ExactShift(v0, 0, eOffset, r, rs, f);
    ExactParts(v0, eOffset, r, rs, f);
    OddPartReal(r, f);
    RealProduct(v0, Pow(r, Max0(f)));
    RPowZero(2);
    assert eOffset + rs * f == 0;
    var x, y, z := Exact(v0, 0, r, rs, f), RPow(2, eOffset), RPow(r, f);
    assert x * y == (v0 as real) * (z * 1.0);
  }
}
