// Rounding of real numbers, and what it means for a number to round to a double.
// A double is given as dtoa.c handles it: m * 2^(e - 53) with 2^52 <= m < 2^53.
module Doubles {
  import opened Powers
  import opened Rounding

  function RoundReal(mode: Mode, x: real): (q: int) {
    x.Floor + if RealRoundsUp(mode, x) then 1 else 0
  }

  predicate RealRoundsUp(mode: Mode, x: real) {
    var d := x - x.Floor as real;
    match mode
    case TowardZero => false
    case NearestAway => 2.0 * d >= 1.0
    case NearestEven => 2.0 * d > 1.0 || (2.0 * d == 1.0 && x.Floor % 2 == 1)
  }

  lemma {:induction false} FloorIs(x: real, q: int)
    requires q as real <= x < q as real + 1.0
    ensures x.Floor == q
  {
  }

  // Rounding a quotient of integers.
  lemma {:induction false} RoundQuotient(mode: Mode, n: nat, d: nat)
    requires d > 0
    ensures RoundReal(mode, (n as real) / (d as real)) == RoundDiv(mode, n, d)
  {
    var q, r := DivMod(n, d);
    var x, t := (n as real) / (d as real), (r as real) / (d as real);
    QuotientParts(n, d, q, r, x, t);
    FloorIs(x, q);
    assert x - q as real == t;
    HalfIs(r, d, t);
  }

  lemma {:induction false} QuotientParts(n: nat, d: nat, q: nat, r: nat, x: real, t: real)
    requires d > 0 && n == q * d + r && r < d && x == (n as real) / (d as real) && t == (r as real) / (d as real)
    ensures x == q as real + t && 0.0 <= t < 1.0
  {
    var y := d as real;
    RealProduct(q, d);
    RCancel(n as real, y);
    RCancel(r as real, y);
    assert y * x == y * (q as real + t) by {
      assert y * (q as real + t) == y * (q as real) + y * t;
    }
    RMulInjective(y, x, q as real + t);
    if t >= 1.0 {
      RMulMono(1.0, t, y);
    }
    if t < 0.0 {
      RMulStrict(t, 0.0, y);
    }
  }

  lemma {:induction false} HalfIs(r: nat, d: nat, t: real)
    requires d > 0 && t == (r as real) / (d as real)
    ensures 2.0 * t > 1.0 <==> 2 * r > d
    ensures 2.0 * t == 1.0 <==> 2 * r == d
  {
    var y, n := d as real, r as real;
    RCancel(n, y);
    TwiceProduct(y, t, n, 2.0 * t);
  }

  lemma {:induction false} TwiceProduct(y: real, t: real, n: real, h: real)
    requires y > 0.0 && y * t == n && h == 2.0 * t
    ensures h > 1.0 <==> 2.0 * n > y
    ensures h == 1.0 <==> 2.0 * n == y
  {
    RMulAssoc(y, 2.0, t);
    RMulAssoc(2.0, y, t);
    assert y * 2.0 == 2.0 * y;
    var z := y * h;
    assert z == 2.0 * n;
    if h > 1.0 {
      RMulStrict(1.0, h, y);
    } else if h < 1.0 {
      RMulStrict(h, 1.0, y);
    }
  }

  lemma {:induction false} RoundInteger(mode: Mode, n: int)
    ensures RoundReal(mode, n as real) == n
  {
    FloorIs(n as real, n);
  }

  // Rounding is monotone, and moves by at most one half.
  lemma {:induction false} RoundMono(mode: Mode, x: real, y: real)
    requires x <= y
    ensures RoundReal(mode, x) <= RoundReal(mode, y)
  {
  }

  lemma {:induction false} RoundNear(mode: Mode, x: real)
    requires mode != TowardZero
    ensures -0.5 <= RoundReal(mode, x) as real - x <= 0.5
  {
  }

  // A number closer than one half to an integer rounds to it; at a distance of exactly one
  // half it does if the integer is even.
  lemma {:induction false} RoundsToNearest(x: real, n: int)
    ensures RoundReal(NearestEven, x) == n <==> -0.5 < x - n as real < 0.5 || ((x - n as real == 0.5 || x - n as real == -0.5) && n % 2 == 0)
  {
    var f := x.Floor;
    if x - n as real >= 0.0 {
      if x - n as real < 1.0 {
        FloorIs(x, n);
      }
    } else if x - n as real >= -1.0 {
      FloorIs(x, n - 1);
    }
  }

  // ---------------------------------------------------------------------------
  // Doubles

  const MIN_EXPONENT := -1021

  // 2^(e-1) <= x < 2^e
  predicate InBinade(x: real, e: int) {
    RPow(2, e - 1) <= x < RPow(2, e)
  }

  // The number of mantissa bits of a double with this exponent; fewer for subnormal ones.
  function Precision(e: int): (p: int) {
    if e < MIN_EXPONENT then 53 - (MIN_EXPONENT - e) else 53
  }

  // The mantissa of x as an integer, before it is moved up to 53 bits.
  function Scaled(x: real, e: int): (y: real) {
    x * RPow(2, Precision(e) - e)
  }

  // After the rounding: 53 bits, with the exponent adjusted if the mantissa has overflowed.
  function Normalize(mant: nat, e: int): (r: (nat, int)) {
    var m := mant * Pow(2, 53 - Precision(e));
    if m >= 0x20_0000_0000_0000 then (m / 2, e + 1) else (m, e)
  }

  // The double nearest to x, ties to even: x lies in some binade, and its mantissa is
  // rounded to the precision available there.
  ghost predicate RoundsTo(x: real, m: nat, e: int) {
    exists b: int :: InBinade(x, b) && RoundReal(NearestEven, Scaled(x, b)) >= 0
                     && (m, e) == Normalize(RoundReal(NearestEven, Scaled(x, b)), b)
  }

  lemma {:induction false} BinadeUnique(x: real, a: int, b: int)
    requires InBinade(x, a) && InBinade(x, b)
    ensures a == b
  {
    hide RPow;
    if a < b - 1 {
      RPowStrict(2, a, b - 1);
    }
    if b < a - 1 {
      RPowStrict(2, b, a - 1);
    }
  }

  // ---------------------------------------------------------------------------
  // The numbers that round to a given double

  const TWO52 := 0x10_0000_0000_0000

  // A finite double other than zero, normalised: 53 bits, of which a subnormal double uses
  // only the upper ones.
  predicate IsDouble(m: nat, e: int) {
    && TWO52 <= m < 2 * TWO52 && -1073 <= e <= 1024
    && (PowPositive(2, 53 - Precision(e)); m % Pow(2, 53 - Precision(e)) == 0)
  }

  function ValueOf(m: nat, e: int): (x: real) {
    (m as real) * RPow(2, e - 53)
  }

  // The mantissa in units of the last place.
  function Units(m: nat, e: int): (u: nat) {
    PowPositive(2, 53 - Precision(e));
    m / Pow(2, 53 - Precision(e))
  }

  // The neighbours on both sides are equally far away, unless the double is the least of a
  // binade of normal numbers.
  predicate Symmetric(m: nat, e: int) {
    m != TWO52 || e <= MIN_EXPONENT
  }

  lemma {:induction false} PowTwo52()
    ensures Pow(2, 52) == TWO52 && Pow(2, 53) == 2 * TWO52
  {
    assert Pow(2, 13) == 8192;
    PowAdd(2, 13, 13);
    PowAdd(2, 26, 26);
    PowStep(2, 52);
  }

  lemma {:induction false} UnitsIs(m: nat, e: int)
    requires IsDouble(m, e)
    ensures Precision(e) >= 1 && m == Units(m, e) * Pow(2, 53 - Precision(e))
    ensures Pow(2, Precision(e) - 1) <= Units(m, e) < Pow(2, Precision(e))
    ensures m == TWO52 <==> Units(m, e) == Pow(2, Precision(e) - 1)
  {
    hide Pow;
    var p := Precision(e);
    var w := Pow(2, 53 - p);
    PowPositive(2, 53 - p);
    var u, r := DivMod(m, w);
    PowTwo52();
    PowAdd(2, p, 53 - p);
    PowAdd(2, p - 1, 53 - p);
    if u < Pow(2, p - 1) {
      MulStrict(u, Pow(2, p - 1), w);
    }
    if u >= Pow(2, p) {
      MulMono(Pow(2, p), u, w);
    }
    if u > Pow(2, p - 1) {
      MulStrict(Pow(2, p - 1), u, w);
    }
  }

  // A double is an integer at its own scale.
  lemma {:induction false} ScaledValue(m: nat, e: int)
    requires IsDouble(m, e)
    ensures Scaled(ValueOf(m, e), e) == Units(m, e) as real
  {
    hide RPow, Pow;
    UnitsIs(m, e);
    var p := Precision(e);
    RPowAdd(2, e - 53, p - e);
    assert e - 53 + (p - e) == -(53 - p);
    RPowInverse(2, 53 - p);
    RPowNat(2, 53 - p);
    var u := Units(m, e);
    RealProduct(u, Pow(2, 53 - p));
    var a, b, c, d := RPow(2, e - 53), RPow(2, p - e), RPow(2, 53 - p), RPow(2, -(53 - p));
    RMulAssoc(m as real, a, b);
    assert Scaled(ValueOf(m, e), e) == (m as real) * d;
    RMulAssoc(u as real, c, d);
    assert (m as real) * d == u as real;
  }

  // Scaling keeps the order, and takes the ends of a binade to powers of two.
  lemma {:induction false} ScaledOrder(y: real, e: int, k: int)
    ensures y < RPow(2, k) <==> Scaled(y, e) < RPow(2, Precision(e) - e + k)
  {
    hide RPow;
    var s := RPow(2, Precision(e) - e);
    RPowAdd(2, k, Precision(e) - e);
    var x, z := RPow(2, k), RPow(2, Precision(e) - e + k);
    assert z == x * s;
    if y < x {
      RMulStrict(y, x, s);
    } else {
      RMulMono(x, y, s);
    }
    var t := Scaled(y, e);
    assert y < x <==> t < z;
  }

  lemma {:induction false} HalfPower(k: int)
    ensures RPow(2, k - 1) == RPow(2, k) / 2.0
  {
    RPowStep(2, k - 1);
  }

  // In a binade: the units of a double are its rounded mantissa.
  lemma {:induction false} NormalizeUnits(m: nat, e: int)
    requires IsDouble(m, e)
    ensures Normalize(Units(m, e), e) == (m, e)
  {
    hide Pow;
    UnitsIs(m, e);
  }

  // The mantissa rounds up to the next binade.
  lemma {:induction false} NormalizeOverflow(e: int)
    requires 0 <= Precision(e - 1)
    ensures Normalize(Pow(2, Precision(e - 1)), e - 1) == (TWO52, e)
  {
    hide Pow;
    PowTwo52();
    PowAdd(2, Precision(e - 1), 53 - Precision(e - 1));
  }

  // A number that rounds to the units of a symmetric double at its scale rounds to it.
  lemma {:induction false} UnitsRoundsTo(y: real, m: nat, e: int)
    requires IsDouble(m, e) && Symmetric(m, e) && y > 0.0
    requires RoundReal(NearestEven, Scaled(y, e)) == Units(m, e)
    ensures RoundsTo(y, m, e)
  {
    hide RPow, Pow, RoundReal;
    var p, t, u := Precision(e), Scaled(y, e), Units(m, e);
    UnitsIs(m, e);
    RoundNear(NearestEven, t);
    ScaledOrder(y, e, e);
    ScaledOrder(y, e, e - 1);
    RPowNat(2, p);
    RPowNat(2, p - 1);
    assert p - e + e == p && p - e + (e - 1) == p - 1;
    if y >= RPow(2, e - 1) {
      assert InBinade(y, e);
      NormalizeUnits(m, e);
    } else {
      assert u == Pow(2, p - 1);
      ScaledOrder(y, e, e - 2);
      assert p - e + (e - 2) == (p - 1) - 1;
      HalfPower(p - 1);
      PowPositive(2, p - 1);
      assert InBinade(y, e - 1);
      assert Precision(e - 1) == p - 1 && Scaled(y, e - 1) == t;
      NormalizeOverflow(e);
    }
  }

  // And conversely.
  lemma {:induction false} RoundsToUnits(y: real, m: nat, e: int)
    requires IsDouble(m, e) && Symmetric(m, e) && RoundsTo(y, m, e)
    ensures y > 0.0 && RoundReal(NearestEven, Scaled(y, e)) == Units(m, e)
  {
    hide RPow, Pow, RoundReal;
    var b: int :| InBinade(y, b) && RoundReal(NearestEven, Scaled(y, b)) >= 0
                  && (m, e) == Normalize(RoundReal(NearestEven, Scaled(y, b)), b);
    var mb := RoundReal(NearestEven, Scaled(y, b));
    var w := Pow(2, 53 - Precision(b));
    PowPositive(2, 53 - Precision(b));
    if e == b {
      UniqueQuotient(m, w, mb, 0);
    } else {
      OverflowIs(y, b, mb);
      assert m == TWO52 && e == b + 1;
      UnitsIs(m, e);
      assert Precision(b) == Precision(e) - 1 && Precision(b) - b == Precision(e) - e;
      assert Scaled(y, e) == Scaled(y, b);
    }
  }

  // Only the power of two itself overflows.
  lemma {:induction false} OverflowIs(y: real, b: int, mb: nat)
    requires InBinade(y, b) && mb == RoundReal(NearestEven, Scaled(y, b))
    requires mb * Pow(2, 53 - Precision(b)) >= 2 * TWO52
    ensures Precision(b) >= 0 && mb == Pow(2, Precision(b)) && mb * Pow(2, 53 - Precision(b)) == 2 * TWO52
  {
    hide RPow, Pow, RoundReal;
    var p, t := Precision(b), Scaled(y, b);
    ScaledOrder(y, b, b);
    assert p - b + b == p;
    PowTwo52();
    if p < 0 {
      RPowZero(2);
      HalfPower(0);
      if p < -1 {
        RPowStrict(2, p, -1);
      }
      Nonnegative(y, b);
      RoundsToNearest(t, 0);
    } else {
      RPowNat(2, p);
      RoundMono(NearestEven, t, Pow(2, p) as real);
      RoundInteger(NearestEven, Pow(2, p));
      PowAdd(2, p, 53 - p);
      PowPositive(2, 53 - p);
      if mb < Pow(2, p) {
        MulStrict(mb, Pow(2, p), Pow(2, 53 - p));
      }
    }
  }

  lemma {:induction false} Nonnegative(y: real, b: int)
    requires InBinade(y, b)
    ensures Scaled(y, b) > 0.0 && y > 0.0
  {
    hide RPow;
    RMulStrict(0.0, y, RPow(2, Precision(b) - b));
  }

  lemma {:induction false} ScaledIs(x: real, e: int)
    ensures Scaled(x, e) == x * RPow(2, Precision(e) - e)
  {
  }

  // What is at least as close to a symmetric double as a number that rounds to it does so too.
  lemma {:induction false} CloserRoundsTo(y: real, z: real, m: nat, e: int)
    requires IsDouble(m, e) && Symmetric(m, e) && RoundsTo(z, m, e) && y > 0.0
    requires RAbs(y - ValueOf(m, e)) <= RAbs(z - ValueOf(m, e))
    ensures RoundsTo(y, m, e)
  {
    hide RPow, Pow, RoundReal, RoundsTo, ValueOf, Units, RAbs, Scaled;
    RoundsToUnits(z, m, e);
    ScaledValue(m, e);
    var x, u, s := ValueOf(m, e), Units(m, e), RPow(2, Precision(e) - e);
    var t, v := Scaled(y, e), Scaled(z, e);
    ScaledIs(x, e);
    ScaledIs(y, e);
    ScaledIs(z, e);
    ScaledDistance(y, x, s, t, u as real);
    ScaledDistance(z, x, s, v, u as real);
    var dy, dz := RAbs(y - x), RAbs(z - x);
    RMulMono(dy, dz, s);
    var ty, tz := RAbs(t - u as real), RAbs(v - u as real);
    assert ty == dy * s && tz == dz * s;
    CloserRounds(t, v, u);
    UnitsRoundsTo(y, m, e);
  }

  lemma {:induction false} CloserRounds(t: real, v: real, u: int)
    requires RoundReal(NearestEven, v) == u && RAbs(t - u as real) <= RAbs(v - u as real)
    ensures RoundReal(NearestEven, t) == u
  {
    hide RoundReal;
    RoundsToNearest(v, u);
    RoundsToNearest(t, u);
  }

  function RAbs(x: real): (y: real) {
    if x >= 0.0 then x else -x
  }

  lemma {:induction false} ScaledDistance(y: real, x: real, s: real, t: real, u: real)
    requires s > 0.0 && t == y * s && u == x * s
    ensures RAbs(t - u) == RAbs(y - x) * s
  {
    assert (y - x) * s == t - u;
    if y - x >= 0.0 {
      RMulMono(0.0, y - x, s);
    } else {
      RMulStrict(y - x, 0.0, s);
      assert (-(y - x)) * s == -((y - x) * s);
    }
  }

  // Whatever is closer to a double than a quarter of a unit in the last place rounds to it.
  lemma {:induction false} QuarterRoundsTo(y: real, m: nat, e: int)
    requires IsDouble(m, e) && y > 0.0 && RAbs(y - ValueOf(m, e)) < RPow(2, e - 55)
    ensures RoundsTo(y, m, e)
  {
    hide RPow, Pow, RoundReal, RoundsTo, ValueOf, Units, RAbs, Scaled;
    ScaledValue(m, e);
    UnitsIs(m, e);
    var p, x, u, s := Precision(e), ValueOf(m, e), Units(m, e), RPow(2, Precision(e) - e);
    var t := Scaled(y, e);
    ScaledIs(x, e);
    ScaledIs(y, e);
    ScaledDistance(y, x, s, t, u as real);
    RPowAdd(2, e - 55, p - e);
    assert e - 55 + (p - e) == p - 55;
    Quarter(p);
    var d, q, z := RAbs(y - x), RPow(2, e - 55), RPow(2, p - 55);
    RMulStrict(d, q, s);
    assert d * s < z <= 0.25;
    var dt := RAbs(t - u as real);
    assert dt == d * s;
    QuarterRounds(t, u);
    if Symmetric(m, e) {
      UnitsRoundsTo(y, m, e);
    } else {
      PowTwo52();
      assert u == TWO52;
      NearPowerOfTwo(y, e, t);
    }
  }

  lemma {:induction false} QuarterRounds(t: real, u: int)
    requires RAbs(t - u as real) < 0.25
    ensures RoundReal(NearestEven, t) == u && -0.25 < t - u as real < 0.25
  {
    RoundsToNearest(t, u);
  }

  // For a symmetric double half a unit is enough.
  lemma {:induction false} HalfRoundsTo(y: real, m: nat, e: int)
    requires IsDouble(m, e) && Symmetric(m, e) && y > 0.0 && RAbs(y - ValueOf(m, e)) < RPow(2, e - 54)
    ensures RoundsTo(y, m, e)
  {
    hide RPow, Pow, RoundReal, RoundsTo, ValueOf, Units, RAbs, Scaled;
    ScaledValue(m, e);
    var p, x, u, s := Precision(e), ValueOf(m, e), Units(m, e), RPow(2, Precision(e) - e);
    var t := Scaled(y, e);
    ScaledIs(x, e);
    ScaledIs(y, e);
    ScaledDistance(y, x, s, t, u as real);
    RPowAdd(2, e - 54, p - e);
    assert e - 54 + (p - e) == p - 54;
    Quarter(p);
    HalfPower(p - 54);
    var d, q, z := RAbs(y - x), RPow(2, e - 54), RPow(2, p - 54);
    RMulStrict(d, q, s);
    assert d * s < z <= 0.5;
    var dt := RAbs(t - u as real);
    assert dt == d * s;
    HalfRounds(t, u);
    UnitsRoundsTo(y, m, e);
  }

  lemma {:induction false} HalfRounds(t: real, u: int)
    requires RAbs(t - u as real) < 0.5
    ensures RoundReal(NearestEven, t) == u
  {
    RoundsToNearest(t, u);
  }

  lemma {:induction false} Quarter(p: int)
    requires p <= 53
    ensures RPow(2, p - 55) <= 0.25
  {
    hide RPow;
    if p < 53 {
      RPowStrict(2, p - 55, -2);
    }
    RPowZero(2);
    HalfPower(0);
    HalfPower(-1);
  }

  // The least double of a binade: what rounds to it lies within half a unit above and, since the
  // doubles below are twice as dense, a quarter of a unit below.
  lemma {:induction false} NearPowerOfTwo(y: real, e: int, t: real)
    requires e > MIN_EXPONENT && y > 0.0 && t == Scaled(y, e) && TWO52 as real - 0.25 <= t <= TWO52 as real + 0.5
    requires IsDouble(TWO52, e)
    ensures RoundsTo(y, TWO52, e)
  {
    hide RPow, Pow, RoundReal;
    PowTwo52();
    ScaledOrder(y, e, e);
    ScaledOrder(y, e, e - 1);
    ScaledOrder(y, e, e - 2);
    RPowNat(2, 53);
    RPowNat(2, 52);
    HalfPower(52);
    assert 53 - e + (e - 1) == 52 && 53 - e + e == 53 && 53 - e + (e - 2) == 52 - 1;
    if y >= RPow(2, e - 1) {
      assert InBinade(y, e);
      RoundsToNearest(t, TWO52);
      NormalizeUnits(TWO52, e);
      UnitsIs(TWO52, e);
    } else {
      assert InBinade(y, e - 1);
      HalfUnits(y, e);
      RoundsToNearest(2.0 * t, 2 * TWO52);
      NormalizeOverflow(e);
    }
  }

  // One binade below there are twice as many units.
  lemma {:induction false} HalfUnits(y: real, e: int)
    requires e > MIN_EXPONENT
    ensures Scaled(y, e - 1) == 2.0 * Scaled(y, e)
  {
    hide RPow;
    RPowStep(2, 53 - e);
    RMulAssoc(y, 2.0, RPow(2, 53 - e));
  }

  // And conversely.
  lemma {:induction false} PowerOfTwoNear(y: real, e: int)
    requires e > MIN_EXPONENT && RoundsTo(y, TWO52, e)
    ensures TWO52 as real - 0.25 <= Scaled(y, e) <= TWO52 as real + 0.5
  {
    hide RPow, Pow, RoundReal;
    var b: int :| InBinade(y, b) && RoundReal(NearestEven, Scaled(y, b)) >= 0
                  && (TWO52, e) == Normalize(RoundReal(NearestEven, Scaled(y, b)), b);
    var q := RoundReal(NearestEven, Scaled(y, b));
    PowTwo52();
    RPowNat(2, 53);
    RPowNat(2, 52);
    RoundsToNearest(Scaled(y, b), q);
    if e == b {
      ScaledOrder(y, b, b - 1);
      assert 53 - b + (b - 1) == 52;
      PowOfZero();
    } else {
      OverflowIs(y, b, q);
      assert e == b + 1;
      ScaledOrder(y, b, b);
      assert 53 - b + b == 53;
      HalfUnits(y, e);
    }
  }

  lemma {:induction false} PowOfZero()
    ensures Pow(2, 0) == 1
  {
  }
}
