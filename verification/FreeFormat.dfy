// The free-format search of js_dtoa in radix 10: the digits it settles on convert back to
// the same double, and no shorter ones do.
module FreeFormat {
  import opened Powers
  import opened Limbs
  import opened Rounding
  import opened Bignum
  import opened Scaling
  import opened Doubles
  import opened DtoaRounding
  import opened RadixLog

  // dtoa_max_digits_table[10 - 2] and DBIGNUM_LEN_MAX
  const MAX_DIGITS := 17
  const BIGNUM_LEN := 52

  // mant * 10^k
  ghost function Decimal(mant: nat, k: int): (x: real) {
    (mant as real) * RPow(10, k)
  }

  // x * 10^k
  ghost function Shifted(x: real, k: int): (y: real) {
    x * RPow(10, k)
  }

  lemma {:induction false} ShiftedIs(x: real, k: int)
    ensures Shifted(x, k) == x * RPow(10, k)
  {
  }

  lemma {:induction false} Tenfold()
    ensures 5 * Pow(2, 1) == 10
  {
    PowOne(2);
  }

  lemma {:induction false} ExactIsDecimal(mant: nat, k: int)
    ensures Exact(mant, 0, 5, 1, k) == Decimal(mant, k)
  {
    hide RPow, Pow;
    Tenfold();
    RPowZero(2);
    var x := RPow(10, k);
    assert 1.0 * x == x;
  }

  // x * 10^(P - E) for the double x
  lemma {:induction false} ExactIsScaled(m: nat, e: int, f: int)
    ensures Exact(m, e - 53, 5, 1, f) == Shifted(ValueOf(m, e), f)
  {
    hide RPow, Pow;
    Tenfold();
    RMulAssoc(m as real, RPow(2, e - 53), RPow(10, f));
  }

  // x with P digits: mant * 10^(E - P) is the nearest number with this exponent, where E is
  // the decimal exponent that makes mant a number of exactly P digits.
  ghost predicate Digits(x: real, e0: int, p: int, e: int, mant: int)
    requires p >= 1
  {
    && mant == RoundReal(NearestEven, Shifted(x, p - e))
    && Pow(10, p - 1) <= mant < Pow(10, p)
    && (e == e0 || (e == e0 + 1 && RoundReal(NearestEven, Shifted(x, p - e0)) >= Pow(10, p)))
  }

  // What the choice of the exponent implies: 10^(e0 - 1) <= x < 2 * 10^e0.
  ghost predicate DecimalBinade(x: real, e0: int) {
    RPow(10, e0 - 1) <= x < 2.0 * RPow(10, e0)
  }

  lemma {:induction false} ScaledBounds(x: real, e0: int, p: int)
    requires DecimalBinade(x, e0) && p >= 1
    ensures Pow(10, p - 1) as real <= Shifted(x, p - e0) < 2.0 * (Pow(10, p) as real)
    ensures 10.0 * Shifted(x, p - e0 - 1) == Shifted(x, p - e0)
  {
    hide RPow, Pow;
    RPowAdd(10, e0 - 1, p - e0);
    RPowAdd(10, e0, p - e0);
    assert e0 - 1 + (p - e0) == p - 1 && e0 + (p - e0) == p;
    RPowNat(10, p - 1);
    RPowNat(10, p);
    RPowStep(10, p - e0 - 1);
    var lo, hi, s, t := RPow(10, e0 - 1), RPow(10, e0), RPow(10, p - e0), RPow(10, p - e0 - 1);
    RMulMono(lo, x, s);
    RMulStrict(x, 2.0 * hi, s);
    RMulAssoc(2.0, hi, s);
    RMulAssoc(x, 10.0, t);
    assert x * 10.0 == 10.0 * x;
    RMulAssoc(10.0, x, t);
    var y, z := Shifted(x, p - e0), Shifted(x, p - e0 - 1);
    assert y == x * s && z == x * t;
  }

  // With e0 the digits may be too many by one; with e0 + 1 they are not.
  lemma {:induction false} DigitsExist(x: real, e0: int, p: int)
    requires DecimalBinade(x, e0) && p >= 1
    ensures var mant := RoundReal(NearestEven, Shifted(x, p - e0));
            Pow(10, p - 1) <= mant <= 2 * Pow(10, p) && (mant < Pow(10, p) ==> Digits(x, e0, p, e0, mant))
    ensures var mant, next := RoundReal(NearestEven, Shifted(x, p - e0)), RoundReal(NearestEven, Shifted(x, p - e0 - 1));
            mant >= Pow(10, p) ==> Digits(x, e0, p, e0 + 1, next)
  {
    hide RPow, Pow, RoundReal, Shifted;
    ScaledBounds(x, e0, p);
    var y, z := Shifted(x, p - e0), Shifted(x, p - e0 - 1);
    var a, b := Pow(10, p - 1), Pow(10, p);
    PowStep(10, p - 1);
    PowPositive(10, p - 1);
    RoundMono(NearestEven, a as real, y);
    RoundInteger(NearestEven, a);
    RoundMono(NearestEven, y, (2 * b) as real);
    RoundInteger(NearestEven, 2 * b);
    if RoundReal(NearestEven, y) >= b {
      RoundNear(NearestEven, y);
      // z lies between a - 0.05 and 2 a
      RoundsToNearest(z, a);
      assert z >= a as real - 0.05;
      RoundMono(NearestEven, z, (2 * a) as real);
      RoundInteger(NearestEven, 2 * a);
      if z >= a as real {
        RoundMono(NearestEven, a as real, z);
      }
      assert p - (e0 + 1) == p - e0 - 1;
    }
  }

  // Trailing zeros do not change the number.
  lemma {:induction false} ZeroStripped(mant: nat, p: int, e: int)
    requires mant % 10 == 0
    ensures Decimal(mant / 10, e - (p - 1)) == Decimal(mant, e - p)
  {
    hide RPow;
    RPowStep(10, e - p);
    var q := mant / 10;
    assert mant as real == (q as real) * 10.0;
    RMulAssoc(q as real, 10.0, RPow(10, e - p));
  }

  // ---------------------------------------------------------------------------
  // The exponent: E = 1 + mul_log2_radix(e - 1, 10)

  function StartExponent(e: int): (e0: int) {
    1 + (e - 1) * MULT10 / MULT_SCALE
  }

  lemma {:induction false} StartIs(e: int)
    requires -1073 <= e <= 1024
    ensures var k := StartExponent(e) - 1; k * MULT_SCALE <= (e - 1) * MULT10 < (k + 1) * MULT_SCALE && IsFloorLog(e - 1, 10, k)
    ensures -323 <= StartExponent(e) <= 309
  {
    hide RPow, IsFloorLog;
    Log10(e - 1, StartExponent(e) - 1);
  }

  // What is known of the digits the search starts from.
  lemma {:induction false} StartBinade(m: nat, e: int)
    requires IsDouble(m, e)
    ensures DecimalBinade(ValueOf(m, e), StartExponent(e))
  {
    hide RPow, IsFloorLog, DecimalBinade, ValueOf, StartExponent;
    StartIs(e);
    FirstExponent(m, e, StartExponent(e) - 1);
  }

  lemma {:induction false} FirstExponent(m: nat, e: int, k: int)
    requires IsDouble(m, e) && IsFloorLog(e - 1, 10, k)
    ensures DecimalBinade(ValueOf(m, e), k + 1)
    ensures RPow(2, e - 1) <= ValueOf(m, e) < RPow(2, e)
  {
    hide RPow, Pow;
    ValueBounds(m, e);
    RPowStep(2, e - 1);
    var x, y, z := RPow(2, e - 1), RPow(10, k + 1), RPow(2, e);
    assert z == 2.0 * x && x < y;
    assert k + 1 - 1 == k;
  }

  lemma {:induction false} ValueIs(m: nat, e: int)
    ensures ValueOf(m, e) == (m as real) * RPow(2, e - 53)
  {
  }

  lemma {:induction false} ValueBounds(m: nat, e: int)
    requires IsDouble(m, e)
    ensures RPow(2, e - 1) <= ValueOf(m, e) < RPow(2, e)
  {
    hide RPow, Pow;
    PowTwo52();
    RPowNat(2, 52);
    RPowNat(2, 53);
    RPowAdd(2, 52, e - 53);
    RPowAdd(2, 53, e - 53);
    assert 52 + (e - 53) == e - 1 && 53 + (e - 53) == e;
    ValueIs(m, e);
    hide ValueOf;
    var s, x := RPow(2, e - 53), m as real;
    var lo, hi, v := RPow(2, e - 1), RPow(2, e), ValueOf(m, e);
    var a, b := RPow(2, 52), RPow(2, 53);
    assert lo == a * s && hi == b * s && v == x * s;
    assert a <= x < b;
    RScaledBetween(a, x, b, s, lo, v, hi);
  }

  // ---------------------------------------------------------------------------
  // The first attempt, with 17 digits, needs no test: 10^16 > 2^53.

  lemma {:induction false} SeventeenDigits(m: nat, e: int, e0: int, e': int, mant: int)
    requires IsDouble(m, e) && DecimalBinade(ValueOf(m, e), e0) && RPow(10, e0 - 1) <= RPow(2, e - 1)
    requires Digits(ValueOf(m, e), e0, MAX_DIGITS, e', mant)
    ensures RoundsTo(Decimal(mant, e' - MAX_DIGITS), m, e)
  {
    hide RPow, Pow, RoundReal, RoundsTo, ValueOf, Shifted, RAbs;
    var x, s, t := ValueOf(m, e), RPow(10, MAX_DIGITS - e'), RPow(10, e' - MAX_DIGITS);
    var y := Decimal(mant, e' - MAX_DIGITS);
    ShiftedIs(x, MAX_DIGITS - e');
    var xs := Shifted(x, MAX_DIGITS - e');
    RoundNear(NearestEven, xs);
    RPowInverse(10, MAX_DIGITS - e');
    assert -(MAX_DIGITS - e') == e' - MAX_DIGITS;
    // the error is at most one half of 10^(e' - 17)
    DecimalError(x, mant, s, t, y, xs);
    PowPositive(10, 16);
    RMulStrict(0.0, mant as real, t);
    assert y > 0.0;
    LastDigit(x, e0, e', mant);
    ValueBounds(m, e);
    HalfPower(e - 54);
    assert e - 54 - 1 == e - 55;
    if Symmetric(m, e) {
      BelowUnit(x, t, RPow(2, e), RPow(2, e - 53), e);
      HalfPower(e - 53);
      HalfRoundsTo(y, m, e);
    } else {
      LeastOfBinade(e);
      BelowUnit(x, t, RPow(2, e - 1), RPow(2, e - 54), e - 1);
      QuarterRoundsTo(y, m, e);
    }
  }

  lemma {:induction false} LeastOfBinade(e: int)
    ensures ValueOf(TWO52, e) == RPow(2, e - 1)
  {
    hide RPow, Pow;
    PowTwo52();
    RPowNat(2, 52);
    RPowAdd(2, 52, e - 53);
    var x, y := ValueOf(TWO52, e), RPow(2, 52 + (e - 53));
    assert x == y;
  }

  // 10^16 units of the last digit do not exceed x by more than a fraction of a unit.
  lemma {:induction false} LastDigit(x: real, e0: int, e': int, mant: int)
    requires DecimalBinade(x, e0) && Digits(x, e0, MAX_DIGITS, e', mant)
    ensures 9_999_999_999_999_999.0 * RPow(10, e' - MAX_DIGITS) <= x
  {
    hide RPow, Pow, RoundReal, Shifted;
    SixteenthPower();
    RPowNat(10, 16);
    RPowAdd(10, 16, e' - MAX_DIGITS);
    assert 16 + (e' - MAX_DIGITS) == e' - 1;
    var t, top := RPow(10, e' - MAX_DIGITS), RPow(10, e' - 1);
    assert top == 10_000_000_000_000_000.0 * t;
    if e' == e0 + 1 {
      var s, w := RPow(10, MAX_DIGITS - e0), RPow(10, e0 - MAX_DIGITS);
      ShiftedIs(x, MAX_DIGITS - e0);
      var xs := Shifted(x, MAX_DIGITS - e0);
      RoundNear(NearestEven, xs);
      RPowInverse(10, MAX_DIGITS - e0);
      RPowStep(10, e0 - MAX_DIGITS);
      assert -(MAX_DIGITS - e0) == e0 - MAX_DIGITS && e0 - MAX_DIGITS + 1 == e' - MAX_DIGITS;
      assert t == 10.0 * w && s * w == 1.0;
      var n := 100_000_000_000_000_000.0;
      assert xs >= n - 0.5;
      RMulMono(n - 0.5, xs, w);
      RMulAssoc(x, s, w);
      assert (n - 0.5) * w <= x;
    }
  }

  lemma {:induction false} SixteenthPower()
    ensures Pow(10, 16) == 10_000_000_000_000_000 && Pow(10, MAX_DIGITS) == 100_000_000_000_000_000
  {
    hide Pow;
    SmallPowers();
    PowStep(10, 16);
  }

  // A number below 2^53 units of u, with 10^16 - 1 units of t in it: t is less than u.
  lemma {:induction false} BelowUnit(x: real, t: real, top: real, u: real, k: int)
    requires t > 0.0 && 9_999_999_999_999_999.0 * t <= x <= top && top == RPow(2, k) && u == RPow(2, k - 53)
    ensures t < u
  {
    hide RPow, Pow;
    PowTwo52();
    RPowNat(2, 53);
    RPowAdd(2, 53, k - 53);
    assert 53 + (k - 53) == k;
    assert top == 9_007_199_254_740_992.0 * u;
  }

  lemma {:induction false} DecimalError(x: real, mant: int, s: real, t: real, y: real, xs: real)
    requires s > 0.0 && t > 0.0 && s * t == 1.0 && y == (mant as real) * t && xs == x * s && -0.5 <= mant as real - xs <= 0.5
    ensures RAbs(y - x) <= 0.5 * t
  {
    var d := mant as real - x * s;
    assert d * t == y - x by {
      RMulAssoc(x, s, t);
      assert (mant as real - x * s) * t == (mant as real) * t - (x * s) * t;
    }
    RMulMono(d, 0.5, t);
    RMulMono(-0.5, d, t);
  }

  // ---------------------------------------------------------------------------
  // No number with as many digits is closer

  lemma {:induction false} IntegerNearest(y: real, n: int)
    ensures RAbs(RoundReal(NearestEven, y) as real - y) <= RAbs(n as real - y)
  {
    hide RoundReal;
    RoundNear(NearestEven, y);
    var q := RoundReal(NearestEven, y);
    if n < q {
      assert n as real <= q as real - 1.0;
    } else if n > q {
      assert n as real >= q as real + 1.0;
    }
  }

  // Distances from x, measured in units of t.
  lemma {:induction false} UnitsDistance(x: real, n: real, s: real, t: real, xs: real, y: real)
    requires s > 0.0 && t > 0.0 && s * t == 1.0 && xs == x * s && y == n * t
    ensures RAbs(y - x) == RAbs(n - xs) * t
  {
    var d := n - xs;
    assert d * t == y - x by {
      RMulAssoc(x, s, t);
      assert (n - xs) * t == n * t - xs * t;
    }
    if d >= 0.0 {
      RMulMono(0.0, d, t);
    } else {
      RMulStrict(d, 0.0, t);
      assert (-d) * t == -(d * t);
    }
  }

  lemma {:induction false} MultipleOfPower(c: nat, k: int, j: int) returns (n: nat)
    requires k >= j
    ensures Decimal(c, k) == (n as real) * RPow(10, j)
  {
    hide RPow, Pow;
    n := c * Pow(10, k - j);
    RPowAdd(10, k - j, j);
    RPowNat(10, k - j);
    RealProduct(c, Pow(10, k - j));
    RMulAssoc(c as real, RPow(10, k - j), RPow(10, j));
  }

  // The digits are at least as close as any multiple of the same power of ten.
  lemma {:induction false} NearestMultiple(x: real, p: int, e: int, mant: nat, n: int, y: real)
    requires mant == RoundReal(NearestEven, Shifted(x, p - e)) && y == (n as real) * RPow(10, e - p)
    ensures RAbs(Decimal(mant, e - p) - x) <= RAbs(y - x)
  {
    hide RPow, RoundReal, Shifted, RAbs, Decimal;
    var s, t, xs := RPow(10, p - e), RPow(10, e - p), Shifted(x, p - e);
    ShiftedIs(x, p - e);
    RPowInverse(10, p - e);
    assert -(p - e) == e - p;
    IntegerNearest(xs, n);
    DecimalIs(mant, e - p);
    var z := Decimal(mant, e - p);
    UnitsDistance(x, mant as real, s, t, xs, z);
    UnitsDistance(x, n as real, s, t, xs, y);
    var a, b := RAbs(mant as real - xs), RAbs(n as real - xs);
    RMulMono(a, b, t);
    var c, d := RAbs(z - x), RAbs(y - x);
    assert c == a * t && d == b * t;
    assert c <= d;
  }

  lemma {:induction false} DecimalIs(mant: nat, k: int)
    ensures Decimal(mant, k) == (mant as real) * RPow(10, k)
  {
  }

  // Any number of at most p digits is at least as far from x.
  lemma {:induction false} NearestDecimal(x: real, e0: int, p: int, e: int, mant: nat, c: nat, k: int)
    requires p >= 1 && DecimalBinade(x, e0) && Digits(x, e0, p, e, mant) && c < Pow(10, p)
    ensures RAbs(Decimal(mant, e - p) - x) <= RAbs(Decimal(c, k) - x)
  {
    hide RPow, Pow, RoundReal, Shifted, RAbs, Decimal;
    DecimalIs(c, k);
    if k >= e - p {
      var n := MultipleOfPower(c, k, e - p);
      NearestMultiple(x, p, e, mant, n, Decimal(c, k));
    } else {
      var top := RPow(10, e - 1);
      RPowAdd(10, p - 1, e - p);
      RPowNat(10, p - 1);
      assert p - 1 + (e - p) == e - 1;
      NearestMultiple(x, p, e, mant, Pow(10, p - 1), top);
      FinerIsFarther(x, e0, p, e, mant, c, k);
    }
  }

  // A number with a smaller exponent lies below 10^(e - 1), which is closer.
  lemma {:induction false} FinerIsFarther(x: real, e0: int, p: int, e: int, mant: nat, c: nat, k: int)
    requires p >= 1 && DecimalBinade(x, e0) && Digits(x, e0, p, e, mant) && c < Pow(10, p) && k < e - p
    ensures RAbs(RPow(10, e - 1) - x) <= RAbs(Decimal(c, k) - x)
  {
    hide RPow, Pow, RoundReal, Shifted, Decimal;
    var y, top := Decimal(c, k), RPow(10, e - 1);
    if e == e0 {
      DecimalIs(c, k);
      RPowAdd(10, p, k);
      RPowNat(10, p);
      var w, b, r := RPow(10, k), Pow(10, p) as real, RPow(10, p + k);
      BelowProduct(c as real, b, w, y, r);
      if p + k < e - 1 {
        RPowStrict(10, p + k, e - 1);
      }
      assert y < top <= x;
    } else {
      OneDigitLess(x, e0, p, c, k);
    }
  }

  // And it lies below x.
  lemma {:induction false} FinerIsLess(x: real, e0: int, p: int, e: int, mant: nat, c: nat, k: int)
    requires p >= 1 && DecimalBinade(x, e0) && Digits(x, e0, p, e, mant) && c < Pow(10, p) && k < e - p
    ensures Decimal(c, k) < x
  {
    hide RPow, Pow, RoundReal, Shifted, Decimal;
    if e == e0 {
      var y, top := Decimal(c, k), RPow(10, e - 1);
      DecimalIs(c, k);
      RPowAdd(10, p, k);
      RPowNat(10, p);
      var w, b, r := RPow(10, k), Pow(10, p) as real, RPow(10, p + k);
      BelowProduct(c as real, b, w, y, r);
      if p + k < e - 1 {
        RPowStrict(10, p + k, e - 1);
      }
      assert y < top <= x;
    } else {
      var s, t, xs, n := RPow(10, p - e0), RPow(10, e0 - p), Shifted(x, p - e0), Pow(10, p);
      ShiftedIs(x, p - e0);
      RPowInverse(10, p - e0);
      assert -(p - e0) == e0 - p;
      RoundNear(NearestEven, xs);
      var v := UnitsOf(c, k, e0 - p, n);
      assert v < xs;
      RMulStrict(v, xs, t);
      RMulAssoc(x, s, t);
      var y := Decimal(c, k);
      assert y == v * t && xs * t == x;
    }
  }

  lemma {:induction false} BelowProduct(a: real, b: real, w: real, y: real, r: real)
    requires a < b && w > 0.0 && y == a * w && r == b * w
    ensures y < r
  {
    RMulStrict(a, b, w);
  }

  lemma {:induction false} OneDigitLess(x: real, e0: int, p: int, c: nat, k: int)
    requires p >= 1 && c < Pow(10, p) && k <= e0 - p && RoundReal(NearestEven, Shifted(x, p - e0)) >= Pow(10, p)
    ensures RAbs(RPow(10, e0) - x) <= RAbs(Decimal(c, k) - x)
  {
    hide RPow, Pow, RoundReal, Shifted, Decimal, RAbs;
    var s, t, xs, n := RPow(10, p - e0), RPow(10, e0 - p), Shifted(x, p - e0), Pow(10, p);
    ShiftedIs(x, p - e0);
    RPowInverse(10, p - e0);
    assert -(p - e0) == e0 - p;
    RoundNear(NearestEven, xs);
    RPowNat(10, p);
    RPowAdd(10, p, e0 - p);
    assert p + (e0 - p) == e0;
    var top, y := RPow(10, e0), Decimal(c, k);
    UnitsDistance(x, n as real, s, t, xs, top);
    // y is v units of t with v <= n - 1
    var v := UnitsOf(c, k, e0 - p, n);
    UnitsDistance(x, v, s, t, xs, y);
    TopIsCloser(n as real, v, xs);
    var a, b := RAbs(n as real - xs), RAbs(v - xs);
    RMulMono(a, b, t);
    var dx, dy := RAbs(top - x), RAbs(y - x);
    assert dx == a * t && dy == b * t;
    assert dx <= dy;
  }

  lemma {:induction false} TopIsCloser(n: real, v: real, xs: real)
    requires v <= n - 1.0 && xs >= n - 0.5
    ensures RAbs(n - xs) <= RAbs(v - xs)
  {
  }

  lemma {:induction false} UnitsOf(c: nat, k: int, j: int, n: nat) returns (v: real)
    requires k <= j && c < n
    ensures Decimal(c, k) == v * RPow(10, j) && v <= n as real - 1.0
  {
    hide RPow;
    v := (c as real) * RPow(10, k - j);
    RPowAdd(10, k - j, j);
    RMulAssoc(c as real, RPow(10, k - j), RPow(10, j));
    DecimalIs(c, k);
    RPowZero(10);
    if k < j {
      RPowStrict(10, k - j, 0);
    }
    var d, w, r, x := Decimal(c, k), RPow(10, j), RPow(10, k - j), c as real;
    assert x <= n as real - 1.0 && r <= 1.0;
    ScaledDown(x, r, n as real);
    assert d == v * w;
  }

  lemma {:induction false} ScaledDown(x: real, r: real, n: real)
    requires 0.0 <= x <= n - 1.0 && 0.0 < r <= 1.0
    ensures x * r <= n - 1.0
  {
    RMulMono(r, 1.0, x);
  }

  // ---------------------------------------------------------------------------
  // The search

  // The numbers of the search fit their types and the bignum has room for all products.
  lemma {:induction false} RoomForSearch(e: int, k: int, p: int, e': int)
    requires -1073 <= e <= 1024 && k * MULT_SCALE <= (e - 1) * MULT10 < (k + 1) * MULT_SCALE
    requires 1 <= p <= MAX_DIGITS && k + 1 <= e' <= k + 2
    ensures OddPart(5) && RoomToRound(BIGNUM_LEN, e - 53, 5, 1, p - e')
    ensures RoomToDouble(BIGNUM_LEN, 2, 5, 1, e' - p)
  {
    FiveIsOddPart();
    hide OddPart;
    assert -324 <= k <= 308;
    var f := p - e';
    if f >= 0 {
      ChunkBound(f, 13);
      assert e - 53 + f * 1 < 32;
    } else {
      ChunkBound(-f, 13);
      assert Headroom(5, 1, f, true, e - 53) < 32;
    }
    if e' - p >= 0 {
      ChunkBound(e' - p, 13);
    } else {
      ChunkBound(p - e', 13);
    }
  }

  lemma {:induction false} ChunkBound(f: nat, d: nat)
    requires d == 13
    ensures f <= 13 * Chunks(f, d) <= f + 12
  {
  }

  // One attempt: x with p digits. The exponent is raised at most once.
  method FindDigits(tmp: Mpb, m: nat, e: int, e0: int, p: int) returns (mant: nat, e': int)
    requires IsDouble(m, e) && tmp.tab.Length == BIGNUM_LEN && 1 <= p <= MAX_DIGITS
    requires DecimalBinade(ValueOf(m, e), e0)
    requires (e0 - 1) * MULT_SCALE <= (e - 1) * MULT10 < e0 * MULT_SCALE
    modifies tmp, tmp.tab
    ensures Digits(ValueOf(m, e), e0, p, e', mant) && e0 <= e' <= e0 + 1
  {
    hide Pow, RPow, RoundReal, Shifted, ValueOf, OddPart, RoomToRound, RoomToDouble, Digits, DecimalBinade;
    ghost var x := ValueOf(m, e);
    PowerFits(p);
    var mantMax := PowUi(10, p);
    assert mantMax == Pow(10, p);
    DigitsExist(x, e0, p);
    e' := e0;
    RoomForSearch(e, e0 - 1, p, e0);
    DoubleFits(m, e);
    MulPowRound(tmp, m, e - 53, 5, 1, p - e0, NearestEven);
    ExactIsScaled(m, e, p - e0);
    ghost var v := tmp.Val();
    assert v < BASE2;
    mant := tmp.GetU64();
    assert mant == v;
    if mant >= mantMax {
      e' := e0 + 1;
      RoomForSearch(e, e0 - 1, p, e0 + 1);
      MulPowRound(tmp, m, e - 53, 5, 1, p - e0 - 1, NearestEven);
      ExactIsScaled(m, e, p - e0 - 1);
      v := tmp.Val();
      DigitsBelow(x, e0, p, e', v);
      mant := tmp.GetU64();
      assert mant == v;
    }
  }

  lemma {:induction false} DoubleFits(m: nat, e: int)
    requires IsDouble(m, e)
    ensures 0 < m < BASE2
  {
  }

  lemma {:induction false} DigitsBelow(x: real, e0: int, p: int, e: int, mant: int)
    requires p >= 1 && p <= MAX_DIGITS && Digits(x, e0, p, e, mant)
    ensures 0 < mant < Pow(10, p) && mant < BASE2 && Pow(10, p - 1) <= mant
  {
    hide Pow;
    PowerFits(p);
    PowPositive(10, p - 1);
  }

  lemma {:induction false} PowerFits(p: nat)
    requires p <= MAX_DIGITS
    ensures 2 * Pow(10, p) < BASE2
  {
    hide Pow;
    SixteenthPower();
    PowMono(10, p, MAX_DIGITS);
  }

  // The nearest number with q digits is y.
  ghost predicate NearestIs(x: real, e0: int, q: int, e: int, y: real) {
    q >= 1 && exists c: nat {:trigger Digits(x, e0, q, e, c)} :: Digits(x, e0, q, e, c) && Decimal(c, e - q) == y
  }

  // With a trailing zero it is also the nearest one with a digit less.
  lemma {:induction false} DigitsStripped(x: real, e0: int, p: int, e: int, mant: nat)
    requires p >= 2 && Digits(x, e0, p, e, mant) && mant % 10 == 0
    ensures Digits(x, e0, p - 1, e, mant / 10)
  {
    hide RPow, Pow, RoundReal, Shifted;
    DigitsBounds(mant, p);
    TenthOf(x, p - e);
    var y, z, q := Shifted(x, p - e), Shifted(x, p - 1 - e), mant / 10;
    RoundNear(NearestEven, y);
    assert -0.05 <= z - q as real <= 0.05;
    RoundsToNearest(z, q);
    if e == e0 + 1 {
      TenthOf(x, p - e0);
      var v, w, b := Shifted(x, p - e0), Shifted(x, p - 1 - e0), Pow(10, p - 1);
      PowStep(10, p - 1);
      RoundNear(NearestEven, v);
      assert w >= b as real - 0.05;
      if w >= b as real {
        RoundMono(NearestEven, b as real, w);
        RoundInteger(NearestEven, b);
      } else {
        RoundsToNearest(w, b);
      }
    }
  }

  lemma {:induction false} TenthOf(x: real, k: int)
    ensures Shifted(x, k) == 10.0 * Shifted(x, k - 1)
  {
    hide RPow;
    RPowStep(10, k - 1);
    RMulAssoc(x, 10.0, RPow(10, k - 1));
    RMulAssoc(10.0, x, RPow(10, k - 1));
    assert x * 10.0 == 10.0 * x;
  }

  lemma {:induction false} DigitsBounds(mant: nat, p: int)
    requires p >= 2 && mant % 10 == 0 && Pow(10, p - 1) <= mant < Pow(10, p)
    ensures Pow(10, p - 2) <= mant / 10 < Pow(10, p - 1)
  {
    hide Pow;
    PowStep(10, p - 1);
    PowStep(10, p - 2);
  }

  // Trailing zeros are dropped.
  method StripZeros(mant0: nat, p0: int, ghost x: real, ghost e0: int, ghost e: int) returns (mant: nat, p: int)
    requires p0 >= 1 && Digits(x, e0, p0, e, mant0)
    ensures 1 <= p <= p0 && Digits(x, e0, p, e, mant) && mant % 10 != 0 && 0 < mant <= mant0
    ensures var y := Decimal(mant0, e - p0); forall q :: p <= q <= p0 ==> NearestIs(x, e0, q, e, y)
    ensures Decimal(mant, e - p) == Decimal(mant0, e - p0)
  {
    hide Pow, RPow, Decimal, Digits;
    mant, p := mant0, p0;
    ghost var y := Decimal(mant0, e - p0);
    DigitsInRange(x, e0, p, e, mant);
    while mant % 10 == 0
      invariant 1 <= p <= p0 && 0 < mant <= mant0 && Digits(x, e0, p, e, mant)
      invariant forall q :: p <= q <= p0 ==> NearestIs(x, e0, q, e, y)
      invariant Decimal(mant, e - p) == y
      decreases p
    {
      ZeroStripped(mant, p, e);
      DigitsInRange(x, e0, p, e, mant);
      StripBounds(mant, p);
      DigitsStripped(x, e0, p, e, mant);
      mant := mant / 10;
      p := p - 1;
    }
  }

  lemma {:induction false} DigitsInRange(x: real, e0: int, p: int, e: int, mant: int)
    requires p >= 1 && Digits(x, e0, p, e, mant)
    ensures Pow(10, p - 1) <= mant < Pow(10, p) && mant > 0
  {
    hide Pow;
    PowPositive(10, p - 1);
  }

  lemma {:induction false} StripBounds(mant: nat, p: int)
    requires p >= 1 && 0 < mant && mant % 10 == 0 && Pow(10, p - 1) <= mant < Pow(10, p)
    ensures p >= 2 && Pow(10, p - 2) <= mant / 10 < Pow(10, p - 1)
  {
    PowOne(10);
    PowStep(10, p - 1);
    if p >= 2 {
      PowStep(10, p - 2);
    }
  }

  // No number of at most p digits rounds to the double.
  ghost predicate NoneRounds(m: nat, e: int, p: nat) {
    forall c: nat, k: int {:trigger Decimal(c, k)} :: c < Pow(10, p) ==> !RoundsTo(Decimal(c, k), m, e)
  }

  // No number of at most p digits is closer to the double than mant * 10^k.
  ghost predicate Closest(m: nat, e: int, p: nat, mant: nat, k: int) {
    forall c: nat, j: int {:trigger Decimal(c, j)} ::
      c < Pow(10, p) ==> RAbs(Decimal(mant, k) - ValueOf(m, e)) <= RAbs(Decimal(c, j) - ValueOf(m, e))
  }

  // The attempt with p digits succeeds: the nearest number converts back.
  ghost predicate NearestConverts(m: nat, e: int, p: int) {
    exists mant: nat, e': int {:trigger Attempt(m, e, p, e', mant)} :: Attempt(m, e, p, e', mant) && RoundsTo(Decimal(mant, e' - p), m, e)
  }

  ghost predicate Attempt(m: nat, e: int, p: int, e': int, mant: nat) {
    p >= 1 && Digits(ValueOf(m, e), StartExponent(e), p, e', mant)
  }

  // It fails, although the next number above with p digits would have done.
  ghost predicate Missed(m: nat, e: int, p: int) {
    exists mant: nat, e': int {:trigger Attempt(m, e, p, e', mant)} ::
      Attempt(m, e, p, e', mant) && !RoundsTo(Decimal(mant, e' - p), m, e) && RoundsTo(Decimal(mant + 1, e' - p), m, e)
  }

  // The digits js_dtoa settles on: the nearest number with p digits, where the attempts with p
  // to 17 digits succeed and the one with p - 1 does not.
  ghost predicate FreeDigits(m: nat, e: int, mant: nat, p: int, e': int) {
    && 1 <= p <= MAX_DIGITS && Attempt(m, e, p, e', mant) && mant % 10 != 0
    && (forall q :: p <= q <= MAX_DIGITS ==> NearestConverts(m, e, q))
    && (p > 1 ==> !NearestConverts(m, e, p - 1))
  }

  // js_dtoa in free format and radix 10.
  method FreeFormat10(m: nat, e: int) returns (mant: nat, p: int, e': int)
    requires IsDouble(m, e)
    ensures FreeDigits(m, e, mant, p, e')
    ensures Pow(10, p - 1) <= mant < Pow(10, p) && RoundsTo(Decimal(mant, e' - p), m, e)
    ensures Closest(m, e, p, mant, e' - p)
    ensures NoneRounds(m, e, p - 1) <==> forall q :: 1 <= q < MAX_DIGITS ==> !Missed(m, e, q)
    ensures Symmetric(m, e) ==> NoneRounds(m, e, p - 1)
  {
    hide Pow, RPow, RoundReal, Shifted, ValueOf, OddPart, RoomToRound, RoomToDouble, Digits, DecimalBinade, RoundsTo, IsFloorLog,
         Decimal, NoneRounds, Closest, Exact, StartExponent, Missed, NearestConverts;
    var tmp := new Mpb(BIGNUM_LEN);
    var log := MulLog2Radix(e - 1, 10, 0);
    var e0 := 1 + log;
    StartIs(e);
    StartUnique(e, log);
    StartBinade(m, e);
    var pTry, pFound := MAX_DIGITS, 0;
    mant, p, e' := 0, 1, 0;
    while true
      invariant 1 <= pTry <= MAX_DIGITS && 0 <= pFound <= MAX_DIGITS && tmp.tab.Length == BIGNUM_LEN
      invariant pFound == 0 ==> pTry == MAX_DIGITS
      invariant pFound > 0 ==> pTry == pFound - 1 && p == pFound && Attempt(m, e, p, e', mant) && mant % 10 != 0
      invariant pFound > 0 ==> forall q :: p <= q <= MAX_DIGITS ==> NearestConverts(m, e, q)
      invariant fresh(tmp) && fresh(tmp.tab)
      decreases pTry
    {
      var mantTry, eTry := FindDigits(tmp, m, e, e0, pTry);
      ghost var full, pFull := mantTry, pTry;
      DigitsBelow(ValueOf(m, e), e0, pTry, eTry, mantTry);
      mantTry, pTry := StripZeros(mantTry, pTry, ValueOf(m, e), e0, eTry);
      var ok := pFound == 0;
      if ok {
        FirstAttempt(m, e, e0, log, eTry, full);
      } else {
        ok := ConvertsBack(tmp, m, e, e0, mantTry, eTry, pTry, pFull);
      }
      if !ok {
        AttemptFails(m, e, pFull, eTry, full);
        break;
      }
      AttemptsSucceed(m, e, pTry, pFull, eTry, Decimal(full, eTry - pFull));
      mant, p, e', pFound := mantTry, pTry, eTry, pTry;
      if pTry == 1 {
        break;
      }
      pTry := pTry - 1;
    }
    FreeDigitsCorrect(m, e, mant, p, e');
    FreeDigitsShortest(m, e, mant, p, e');
  }

  lemma {:induction false} StartUnique(e: int, k: int)
    requires k * MULT_SCALE <= (e - 1) * MULT10 < (k + 1) * MULT_SCALE
    ensures StartExponent(e) == k + 1
  {
  }

  lemma {:induction false} DigitsUnique(x: real, e0: int, p: int, e: int, mant: int, e': int, mant': int)
    requires p >= 1 && Digits(x, e0, p, e, mant) && Digits(x, e0, p, e', mant')
    ensures e == e' && mant == mant'
  {
    hide Pow, RoundReal, Shifted;
  }

  lemma {:induction false} AttemptFails(m: nat, e: int, p: int, e': int, mant: nat)
    requires Attempt(m, e, p, e', mant) && !RoundsTo(Decimal(mant, e' - p), m, e)
    ensures !NearestConverts(m, e, p)
  {
    hide Decimal, Digits, RoundsTo, ValueOf;
    if NearestConverts(m, e, p) {
      var mant': nat, k: int :| Attempt(m, e, p, k, mant') && RoundsTo(Decimal(mant', k - p), m, e);
      DigitsUnique(ValueOf(m, e), StartExponent(e), p, e', mant, k, mant');
    }
  }

  lemma {:induction false} AttemptsSucceed(m: nat, e: int, p: int, pFull: int, e': int, y: real)
    requires forall q :: p <= q <= pFull ==> NearestIs(ValueOf(m, e), StartExponent(e), q, e', y)
    requires RoundsTo(y, m, e)
    ensures forall q :: p <= q <= pFull ==> NearestConverts(m, e, q)
  {
    hide Decimal, Digits, RoundsTo, ValueOf, StartExponent;
    forall q | p <= q <= pFull
      ensures NearestConverts(m, e, q)
    {
      assert NearestIs(ValueOf(m, e), StartExponent(e), q, e', y);
      var c: nat :| Digits(ValueOf(m, e), StartExponent(e), q, e', c) && Decimal(c, e' - q) == y;
      assert Attempt(m, e, q, e', c);
    }
  }

  // They convert back, and no number with as many digits is closer.
  lemma {:induction false} FreeDigitsCorrect(m: nat, e: int, mant: nat, p: int, e': int)
    requires IsDouble(m, e) && FreeDigits(m, e, mant, p, e')
    ensures Pow(10, p - 1) <= mant < Pow(10, p) && -330 < e' < 330
    ensures RoundsTo(Decimal(mant, e' - p), m, e) && Closest(m, e, p, mant, e' - p)
  {
    hide Pow, RPow, Digits, DecimalBinade, RoundsTo, ValueOf, Decimal, RAbs, StartExponent, NearestConverts;
    var x, e0 := ValueOf(m, e), StartExponent(e);
    StartIs(e);
    StartBinade(m, e);
    DigitsInRange(x, e0, p, e', mant);
    DigitsExponent(x, e0, p, e', mant);
    assert NearestConverts(m, e, p);
    if !RoundsTo(Decimal(mant, e' - p), m, e) {
      AttemptFails(m, e, p, e', mant);
    }
    forall c: nat, k: int | c < Pow(10, p)
      ensures RAbs(Decimal(mant, e' - p) - ValueOf(m, e)) <= RAbs(Decimal(c, k) - ValueOf(m, e))
    {
      NearestDecimal(x, e0, p, e', mant, c, k);
    }
  }

  lemma {:induction false} DigitsExponent(x: real, e0: int, p: int, e: int, mant: int)
    requires p >= 1 && Digits(x, e0, p, e, mant)
    ensures e0 <= e <= e0 + 1
  {
    hide Pow, RoundReal, Shifted;
  }

  // They are the shortest digits that convert back if and only if no attempt misses. Unless
  // the double is the least of a binade, none does.
  lemma {:induction false} FreeDigitsShortest(m: nat, e: int, mant: nat, p: int, e': int)
    requires IsDouble(m, e) && FreeDigits(m, e, mant, p, e')
    ensures NoneRounds(m, e, p - 1) <==> forall q :: 1 <= q < MAX_DIGITS ==> !Missed(m, e, q)
    ensures Symmetric(m, e) ==> NoneRounds(m, e, p - 1)
  {
    hide Pow, RPow, Attempt, RoundsTo, Decimal, NearestConverts, Missed, Symmetric, IsDouble;
    if NoneRounds(m, e, p - 1) {
      forall q | 1 <= q < MAX_DIGITS
        ensures !Missed(m, e, q)
      {
        if q >= p {
          NotMissed(m, e, q);
        } else {
          FewerDigits(m, e, q, p - 1);
          MissedRounds(m, e, q);
        }
      }
    } else {
      if p == 1 {
        NoDigits(m, e);
      }
      FailedAttempt(m, e, p - 1);
      assert Missed(m, e, p - 1) && !Symmetric(m, e);
    }
  }

  lemma {:induction false} NotMissed(m: nat, e: int, q: int)
    requires NearestConverts(m, e, q)
    ensures !Missed(m, e, q)
  {
    hide Digits, RoundsTo, Decimal, ValueOf, StartExponent;
    if Missed(m, e, q) {
      var mant: nat, k: int :| Attempt(m, e, q, k, mant) && !RoundsTo(Decimal(mant, k - q), m, e) && RoundsTo(Decimal(mant + 1, k - q), m, e);
      AttemptFails(m, e, q, k, mant);
    }
  }

  lemma {:induction false} FewerDigits(m: nat, e: int, q: nat, p: nat)
    requires q <= p && NoneRounds(m, e, p)
    ensures NoneRounds(m, e, q)
  {
    hide Pow, RoundsTo, Decimal;
    PowMono(10, q, p);
  }

  lemma {:induction false} MissedRounds(m: nat, e: int, q: int)
    requires q >= 1 && NoneRounds(m, e, q)
    ensures !Missed(m, e, q)
  {
    hide Pow, RPow, Digits, RoundsTo, Decimal, ValueOf, StartExponent;
    if Missed(m, e, q) {
      var mant: nat, k: int :| Attempt(m, e, q, k, mant) && !RoundsTo(Decimal(mant, k - q), m, e) && RoundsTo(Decimal(mant + 1, k - q), m, e);
      DigitsInRange(ValueOf(m, e), StartExponent(e), q, k, mant);
      var c, j := NextHasDigits(mant, q, k);
    }
  }

  // A failed attempt misses if any number with as many digits converts back.
  lemma {:induction false} FailedAttempt(m: nat, e: int, p: int)
    requires IsDouble(m, e) && p >= 1 && !NearestConverts(m, e, p)
    ensures Missed(m, e, p) <==> !NoneRounds(m, e, p)
    ensures Missed(m, e, p) ==> !Symmetric(m, e)
  {
    hide Pow, RPow, Digits, RoundsTo, Decimal, ValueOf, StartExponent, DecimalBinade, NoneRounds, Symmetric, IsDouble;
    var x, e0 := ValueOf(m, e), StartExponent(e);
    StartBinade(m, e);
    var mant, k := SomeDigits(x, e0, p);
    assert Attempt(m, e, p, k, mant);
    ShorterExactly(m, e, e0, p, k, mant);
    NotShorter(m, e, e0, p, k, mant);
    if Missed(m, e, p) {
      var mant': nat, k': int :| Attempt(m, e, p, k', mant') && !RoundsTo(Decimal(mant', k' - p), m, e) && RoundsTo(Decimal(mant' + 1, k' - p), m, e);
      DigitsUnique(x, e0, p, k, mant, k', mant');
    }
  }

  lemma {:induction false} SomeDigits(x: real, e0: int, p: int) returns (mant: nat, e: int)
    requires DecimalBinade(x, e0) && p >= 1
    ensures Digits(x, e0, p, e, mant)
  {
    hide Pow, RoundReal, Shifted, DecimalBinade, Digits;
    DigitsExist(x, e0, p);
    if RoundReal(NearestEven, Shifted(x, p - e0)) < Pow(10, p) {
      mant, e := RoundReal(NearestEven, Shifted(x, p - e0)), e0;
    } else {
      e := e0 + 1;
      DigitsInRange(x, e0, p, e, RoundReal(NearestEven, Shifted(x, p - e0 - 1)));
      mant := RoundReal(NearestEven, Shifted(x, p - e0 - 1));
    }
  }

  // A double has one printed form only.
  lemma {:induction false} FreeDigitsUnique(m: nat, e: int, mant: nat, p: int, e': int, mant2: nat, p2: int, e2: int)
    requires FreeDigits(m, e, mant, p, e') && FreeDigits(m, e, mant2, p2, e2)
    ensures mant == mant2 && p == p2 && e' == e2
  {
    hide Digits, NearestConverts, ValueOf, StartExponent;
    if p != p2 {
      assert false;
    }
    DigitsUnique(ValueOf(m, e), StartExponent(e), p, e', mant, e2, mant2);
  }

  // The test of an attempt: convert it back and compare.
  method ConvertsBack(tmp: Mpb, m: nat, e: int, ghost e0: int, mant: nat, e': int, p: int, ghost pFull: int) returns (ok: bool)
    requires IsDouble(m, e) && tmp.tab.Length == BIGNUM_LEN && 1 <= p <= pFull <= MAX_DIGITS && 0 < mant < BASE2
    requires (e0 - 1) * MULT_SCALE <= (e - 1) * MULT10 < e0 * MULT_SCALE && e0 <= e' <= e0 + 1
    modifies tmp, tmp.tab
    ensures ok <==> RoundsTo(Decimal(mant, e' - p), m, e)
  {
    hide Pow, RPow, RoundsTo, Decimal, OddPart, RoomToDouble, RoomToRound, Exact;
    RoomForSearch(e, e0 - 1, p, e');
    tmp.SetU64(mant);
    RoomShrinks(tmp.len, e' - p);
    var m1, e1 := MulPowRoundToD(tmp, 5, 1, e' - p);
    ExactIsDecimal(mant, e' - p);
    ok := m1 == m && e1 == e;
    RoundsToUnique(Decimal(mant, e' - p), m, e, m1, e1);
  }

  lemma {:induction false} RoomShrinks(len: nat, f: int)
    requires OddPart(5) && RoomToDouble(BIGNUM_LEN, 2, 5, 1, f) && len <= 2
    ensures RoomToDouble(BIGNUM_LEN, len, 5, 1, f)
  {
    hide OddPart;
  }

  lemma {:induction false} RoundsToUnique(y: real, m: nat, e: int, m': nat, e': int)
    requires RoundsTo(y, m', e')
    ensures RoundsTo(y, m, e) <==> m == m' && e == e'
  {
    hide RPow, Pow, RoundReal, Normalize;
    if RoundsTo(y, m, e) {
      var a: int :| InBinade(y, a) && RoundReal(NearestEven, Scaled(y, a)) >= 0
                    && (m, e) == Normalize(RoundReal(NearestEven, Scaled(y, a)), a);
      var b: int :| InBinade(y, b) && RoundReal(NearestEven, Scaled(y, b)) >= 0
                    && (m', e') == Normalize(RoundReal(NearestEven, Scaled(y, b)), b);
      BinadeUnique(y, a, b);
    }
  }

  lemma {:induction false} FirstAttempt(m: nat, e: int, e0: int, k: int, e': int, mant: nat)
    requires IsDouble(m, e) && IsFloorLog(e - 1, 10, k) && e0 == k + 1
    requires Digits(ValueOf(m, e), e0, MAX_DIGITS, e', mant)
    ensures RoundsTo(Decimal(mant, e' - MAX_DIGITS), m, e)
  {
    hide RPow, Pow, RoundsTo, Digits, DecimalBinade;
    FirstExponent(m, e, k);
    SeventeenDigits(m, e, e0, e', mant);
  }

  lemma {:induction false} NoDigits(m: nat, e: int)
    ensures NoneRounds(m, e, 0)
  {
    hide RPow, RoundReal;
    forall c: nat, k: int | c < Pow(10, 0)
      ensures !RoundsTo(Decimal(c, k), m, e)
    {
      assert c == 0;
      assert Decimal(c, k) == 0.0;
    }
  }

  // If the closest number with p digits does not round to the double, none does.
  lemma {:induction false} NotShorter(m: nat, e: int, e0: int, p: int, e': int, mant: nat)
    requires IsDouble(m, e) && p >= 1 && DecimalBinade(ValueOf(m, e), e0) && Digits(ValueOf(m, e), e0, p, e', mant)
    requires !RoundsTo(Decimal(mant, e' - p), m, e)
    ensures Symmetric(m, e) ==> NoneRounds(m, e, p)
  {
    hide Pow, RPow, Digits, DecimalBinade, RoundsTo, RAbs, ValueOf, Decimal;
    if Symmetric(m, e) {
      forall c: nat, k: int | c < Pow(10, p)
        ensures !RoundsTo(Decimal(c, k), m, e)
      {
        NearestDecimal(ValueOf(m, e), e0, p, e', mant, c, k);
        DecimalPositive(ValueOf(m, e), e0, p, e', mant);
        if RoundsTo(Decimal(c, k), m, e) {
          CloserRoundsTo(Decimal(mant, e' - p), Decimal(c, k), m, e);
        }
      }
    }
  }

  // A number above x with at most p digits is no less than the one behind the nearest.
  lemma {:induction false} NextAbove(x: real, e0: int, p: int, e: int, mant: nat, c: nat, k: int)
    requires p >= 1 && DecimalBinade(x, e0) && Digits(x, e0, p, e, mant) && c < Pow(10, p)
    requires Decimal(mant, e - p) < x < Decimal(c, k)
    ensures x < Decimal(mant + 1, e - p) <= Decimal(c, k)
  {
    hide RPow, Pow, RoundReal, Shifted, Decimal, DecimalBinade, Digits;
    NextIsAbove(x, e0, p, e, mant);
    if k >= e - p {
      var n := MultipleOfPower(c, k, e - p);
      NextMultiple(mant, n, e - p, Decimal(c, k));
    } else {
      FinerIsLess(x, e0, p, e, mant, c, k);
    }
  }

  lemma {:induction false} NextMultiple(mant: nat, n: nat, j: int, y: real)
    requires y == (n as real) * RPow(10, j) && Decimal(mant, j) < y
    ensures Decimal(mant + 1, j) <= y
  {
    hide RPow, Decimal;
    var t := RPow(10, j);
    DecimalIs(mant, j);
    DecimalIs(mant + 1, j);
    var a, b := Decimal(mant, j), Decimal(mant + 1, j);
    assert a == (mant as real) * t && b == ((mant + 1) as real) * t;
    IntegersApart(mant, n, t);
  }

  lemma {:induction false} NextIsAbove(x: real, e0: int, p: int, e: int, mant: nat)
    requires p >= 1 && Digits(x, e0, p, e, mant)
    ensures x < Decimal(mant + 1, e - p)
  {
    hide RPow, Pow, Shifted, Decimal, RoundReal;
    var s, t, xs := RPow(10, p - e), RPow(10, e - p), Shifted(x, p - e);
    ShiftedIs(x, p - e);
    RPowInverse(10, p - e);
    assert -(p - e) == e - p;
    RoundNear(NearestEven, xs);
    DecimalIs(mant + 1, e - p);
    RMulAssoc(x, s, t);
    RMulStrict(xs, (mant + 1) as real, t);
    var z := Decimal(mant + 1, e - p);
    assert xs * t == x && z == ((mant + 1) as real) * t;
  }

  lemma {:induction false} IntegersApart(a: int, b: int, t: real)
    requires t > 0.0 && (a as real) * t < (b as real) * t
    ensures ((a + 1) as real) * t <= (b as real) * t
  {
    if b <= a {
      RMulMono(b as real, a as real, t);
    } else {
      RMulMono((a + 1) as real, b as real, t);
    }
  }

  // The numbers that round to the least double of a binade.
  lemma {:induction false} PowerOfTwoInterval(y: real, m: nat, e: int)
    requires IsDouble(m, e) && !Symmetric(m, e) && y > 0.0
    ensures var x, u := ValueOf(m, e), RPow(2, e - 53); RoundsTo(y, m, e) <==> x - 0.25 * u <= y <= x + 0.5 * u
  {
    hide RPow, Pow, RoundsTo, Scaled, ValueOf, IsDouble;
    var x, u, s := ValueOf(m, e), RPow(2, e - 53), RPow(2, 53 - e);
    ValueIs(m, e);
    ScaledIs(y, e);
    RPowInverse(2, e - 53);
    assert -(e - 53) == 53 - e;
    var t, n := Scaled(y, e), TWO52 as real;
    assert t == y * s && x == n * u;
    Between(y, t, s, u, n - 0.25, n + 0.5);
    assert (n - 0.25) * u == x - 0.25 * u && (n + 0.5) * u == x + 0.5 * u;
    if RoundsTo(y, m, e) {
      PowerOfTwoNear(y, e);
    }
    if n - 0.25 <= t <= n + 0.5 {
      NearPowerOfTwo(y, e, t);
    }
  }

  lemma {:induction false} Between(y: real, t: real, s: real, u: real, lo: real, hi: real)
    requires s > 0.0 && u > 0.0 && u * s == 1.0 && t == y * s
    ensures lo <= t <= hi <==> lo * u <= y <= hi * u
  {
    RMulAssoc(y, s, u);
    assert t * u == y;
    if lo <= t {
      RMulMono(lo, t, u);
    } else {
      RMulStrict(t, lo, u);
    }
    if t <= hi {
      RMulMono(t, hi, u);
    } else {
      RMulStrict(hi, t, u);
    }
  }

  // If the nearest number with p digits does not round to the least double of a binade but
  // another one does, then the next number above does.
  lemma {:induction false} NextRounds(m: nat, e: int, e0: int, p: int, e': int, mant: nat, c: nat, k: int)
    requires IsDouble(m, e) && !Symmetric(m, e)
    requires p >= 1 && DecimalBinade(ValueOf(m, e), e0) && Digits(ValueOf(m, e), e0, p, e', mant)
    requires !RoundsTo(Decimal(mant, e' - p), m, e) && c < Pow(10, p) && RoundsTo(Decimal(c, k), m, e)
    ensures RoundsTo(Decimal(mant + 1, e' - p), m, e)
  {
    hide RPow, Pow, RoundsTo, ValueOf, IsDouble, Symmetric, Digits, DecimalBinade, Decimal;
    var x, u := ValueOf(m, e), RPow(2, e - 53);
    var y, z, d := Decimal(mant, e' - p), Decimal(mant + 1, e' - p), Decimal(c, k);
    NearestDecimal(x, e0, p, e', mant, c, k);
    DecimalPositive(x, e0, p, e', mant);
    RoundsPositive(d, m, e);
    PowerOfTwoInterval(y, m, e);
    PowerOfTwoInterval(d, m, e);
    assert y < x < d;
    NextAbove(x, e0, p, e', mant, c, k);
    PowerOfTwoInterval(z, m, e);
  }

  lemma {:induction false} RoundsPositive(y: real, m: nat, e: int)
    requires RoundsTo(y, m, e)
    ensures y > 0.0
  {
    hide RPow, RoundReal;
  }

  // If the nearest number with p digits does not convert back, then some number with at most
  // p digits does exactly if the next number above the nearest does.
  lemma {:induction false} ShorterExactly(m: nat, e: int, e0: int, p: int, e': int, mant: nat)
    requires IsDouble(m, e) && p >= 1 && DecimalBinade(ValueOf(m, e), e0) && Digits(ValueOf(m, e), e0, p, e', mant)
    requires !RoundsTo(Decimal(mant, e' - p), m, e)
    ensures NoneRounds(m, e, p) <==> !RoundsTo(Decimal(mant + 1, e' - p), m, e)
  {
    hide RPow, Pow, RoundsTo, ValueOf, IsDouble, Symmetric, DecimalBinade, Decimal, RoundReal, Shifted;
    var c', k' := NextHasDigits(mant, p, e');
    if Symmetric(m, e) {
      NotShorter(m, e, e0, p, e', mant);
    }
    if !NoneRounds(m, e, p) {
      var c: nat, k: int :| c < Pow(10, p) && RoundsTo(Decimal(c, k), m, e);
      NextRounds(m, e, e0, p, e', mant, c, k);
    }
  }

  lemma {:induction false} NextHasDigits(mant: nat, p: nat, e': int) returns (c: nat, k: int)
    requires p >= 1 && mant < Pow(10, p)
    ensures c < Pow(10, p) && Decimal(c, k) == Decimal(mant + 1, e' - p)
  {
    hide RPow, Pow, Decimal;
    c, k := mant + 1, e' - p;
    if c == Pow(10, p) {
      DecimalIs(c, k);
      DecimalIs(1, e');
      RPowNat(10, p);
      RPowAdd(10, p, e' - p);
      assert p + (e' - p) == e';
      PowOne(10);
      PowMono(10, 1, p);
      var a, b := Decimal(1, e'), Decimal(c, k);
      assert a == b;
      c, k := 1, e';
    }
  }

  lemma {:induction false} DecimalPositive(x: real, e0: int, p: int, e: int, mant: nat)
    requires p >= 1 && Digits(x, e0, p, e, mant)
    ensures Decimal(mant, e - p) > 0.0
  {
    hide RPow, Pow;
    PowPositive(10, p - 1);
    RMulStrict(0.0, mant as real, RPow(10, e - p));
  }

  // ---------------------------------------------------------------------------
  // The least double of a binade: 2^-24 is printed with 17 digits although 16 would do.

  lemma {:induction false} FifthPowers()
    ensures Pow(5, 23) == 11_920_928_955_078_125
  {
    hide Pow;
    Pow5Table(13);
    Pow5Table(10);
    PowAdd(5, 13, 10);
  }

  // c * 10^-23 at the scale 2^(53 - e).
  lemma {:induction false} ScaledDecimal(c: nat, j: nat) returns (t: real)
    requires j >= 23
    ensures t == Decimal(c, -23) * RPow(2, j) && 11_920_928_955_078_125.0 * t == (c as real) * (Pow(2, j - 23) as real)
  {
    hide RPow, Pow, Decimal;
    FifthPowers();
    RPowBase(5, 2, -23);
    RPowInverse(5, 23);
    RPowNat(5, 23);
    RPowAdd(2, -23, j);
    RPowNat(2, j - 23);
    assert -23 + j == j - 23;
    DecimalIs(c, -23);
    t := Decimal(c, -23) * RPow(2, j);
    var x, f, g, h, w := c as real, RPow(5, -23), RPow(2, -23), RPow(2, j), RPow(5, 23);
    assert t == (x * (f * g)) * h;
    RMulAssoc(x, f * g, h);
    RMulAssoc(f, g, h);
    assert t == x * (f * (g * h));
    RMulAssoc(x, f, g * h);
    assert w * ((x * f) * (g * h)) == x * (g * h) by {
      assert w * f == 1.0;
      RMulAssoc(w, x * f, g * h);
      assert w * (x * f) == x * (w * f);
    }
  }

  // 2^-24 is 5960464477539062.5 * 10^-23. With 16 digits the tie goes to the even neighbour,
  // which does not convert back because the doubles below 2^-24 are closer together; the odd
  // one would. So the 17 digits of the first attempt are printed.
  lemma {:induction false} PowerOfTwoNotShortest(mant: nat, p: int, e': int)
    requires FreeDigits(TWO52, -23, mant, p, e')
    ensures IsDouble(TWO52, -23) && mant == 59_604_644_775_390_625 && p == 17 && e' == -7
    ensures RoundsTo(Decimal(5_960_464_477_539_063, -23), TWO52, -23)
    ensures Missed(TWO52, -23, 16) && !NoneRounds(TWO52, -23, p - 1)
  {
    hide RPow, Pow, Decimal, Digits, RoundsTo, RoundReal, Shifted, ValueOf, NearestConverts, NoneRounds, Missed;
    TheDouble();
    TooSmall();
    CloseEnough();
    assert StartExponent(-23) == -7;
    SixteenDigits();
    if p <= 16 {
      assert NearestConverts(TWO52, -23, 16);
      AttemptFails(TWO52, -23, 16, -7, 5_960_464_477_539_062);
    }
    SeventeenthDigit(e', mant);
    IsMissed(TWO52, -23, 16, -7, 5_960_464_477_539_062);
    if NoneRounds(TWO52, -23, 16) {
      MissedRounds(TWO52, -23, 16);
    }
  }

  lemma {:induction false} IsMissed(m: nat, e: int, p: int, e': int, mant: nat)
    requires Attempt(m, e, p, e', mant) && !RoundsTo(Decimal(mant, e' - p), m, e) && RoundsTo(Decimal(mant + 1, e' - p), m, e)
    ensures Missed(m, e, p)
  {
    hide Attempt, RoundsTo, Decimal;
  }

  lemma {:induction false} TheDouble()
    ensures IsDouble(TWO52, -23)
  {
    PowOne(2);
  }

  // 5^23 * 2^23 * 2^-24
  lemma {:induction false} HalfInteger()
    ensures Shifted(ValueOf(TWO52, -23), 23) == 5_960_464_477_539_062.5
  {
    hide RPow, Pow, ValueOf;
    var x := ValueOf(TWO52, -23);
    LeastOfBinade(-23);
    FifthPowers();
    RPowBase(5, 2, 23);
    RPowNat(5, 23);
    RPowAdd(2, -24, 23);
    RPowZero(2);
    HalfPower(0);
    ShiftedIs(x, 23);
    var f, g, h := RPow(5, 23), RPow(2, 23), RPow(2, -24);
    RMulAssoc(h, g, f);
    assert f * g == g * f;
    assert h * g == 0.5;
  }

  lemma {:induction false} SixteenDigits()
    ensures Digits(ValueOf(TWO52, -23), -7, 16, -7, 5_960_464_477_539_062)
  {
    hide RPow, Pow, RoundReal, ValueOf, Shifted;
    HalfInteger();
    RoundsToNearest(5_960_464_477_539_062.5, 5_960_464_477_539_062);
    FifteenthPower();
    SixteenthPower();
    assert 16 - (-7) == 23;
  }

  lemma {:induction false} FifteenthPower()
    ensures Pow(10, 15) == 1_000_000_000_000_000
  {
    hide Pow;
    SixteenthPower();
    PowStep(10, 15);
  }

  lemma {:induction false} SeventeenthDigit(e': int, mant: int)
    requires Digits(ValueOf(TWO52, -23), -7, 17, e', mant)
    ensures e' == -7 && mant == 59_604_644_775_390_625
  {
    hide RPow, Pow, RoundReal, ValueOf, Shifted;
    HalfInteger();
    TenthOf(ValueOf(TWO52, -23), 24);
    RoundInteger(NearestEven, 59_604_644_775_390_625);
    SixteenthPower();
    assert 17 - (-7) == 24;
  }

  lemma {:induction false} TooSmall()
    ensures !RoundsTo(Decimal(5_960_464_477_539_062, -23), TWO52, -23)
  {
    hide RPow, Pow, Decimal, RoundReal;
    var y := Decimal(5_960_464_477_539_062, -23);
    var t := ScaledDecimal(5_960_464_477_539_062, 77);
    PowTwo52();
    PowStep(2, 53);
    assert t < 9_007_199_254_740_991.3 && t > 9_007_199_254_740_991.0;
    assert Precision(-24) == 53;
    ScaledIs(y, -24);
    assert Scaled(y, -24) == t;
    ScaledOrder(y, -24, -24);
    ScaledOrder(y, -24, -25);
    RPowNat(2, 53);
    RPowNat(2, 52);
    assert 53 + 24 - 24 == 53 && 53 + 24 - 25 == 52;
    assert InBinade(y, -24);
    RoundsToNearest(t, 9_007_199_254_740_991);
    if RoundsTo(y, TWO52, -23) {
      var b: int :| InBinade(y, b) && RoundReal(NearestEven, Scaled(y, b)) >= 0
                    && (TWO52, -23) == Normalize(RoundReal(NearestEven, Scaled(y, b)), b);
      BinadeUnique(y, b, -24);
      PowOne(2);
    }
  }

  lemma {:induction false} CloseEnough()
    ensures RoundsTo(Decimal(5_960_464_477_539_063, -23), TWO52, -23)
  {
    hide RPow, Pow, Decimal, RoundReal;
    var y := Decimal(5_960_464_477_539_063, -23);
    var t := ScaledDecimal(5_960_464_477_539_063, 76);
    PowTwo52();
    assert TWO52 as real < t < TWO52 as real + 0.4;
    assert Precision(-23) == 53;
    ScaledIs(y, -23);
    assert Scaled(y, -23) == t;
    ScaledOrder(y, -23, -23);
    ScaledOrder(y, -23, -24);
    RPowNat(2, 53);
    RPowNat(2, 52);
    assert 53 + 23 - 23 == 53 && 53 + 23 - 24 == 52;
    assert InBinade(y, -23);
    RoundsToNearest(t, TWO52);
    PowOne(2);
  }
}
